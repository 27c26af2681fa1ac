/**
 * The format compiler of virya_io.js (`sprintf_parse` without its cache): the
 * prefix patterns `re.text`, `re.modulo`, `re.placeholder`, `re.key`,
 * `re.key_access` and `re.index_access` written out as matchers, the loop
 * that strips one matched prefix after another, and the functions that
 * specify what the loop returns.
 */
module FormatParser {
  import opened JsText
  import opened Outcomes

  /** Where a placeholder takes its argument from. */
  datatype ArgRef =
    | Implicit                       // the next positional argument
    | Explicit(index: nat)           // `n$`
    | Named(keys: seq<JsString>)     // `(key.path)`, split into its keys

  /** The record `sprintf_parse` pushes for a placeholder. */
  datatype Directive = Directive(
    raw: JsString,               // `placeholder`: the matched text
    arg: ArgRef,                 // `param_no` or `keys`
    plus: bool,                  // `sign`
    pad: Option<JsString>,       // `pad_char`: `0` or a quote and one character
    leftAlign: bool,             // `align`
    width: Option<nat>,          // `width`
    precision: Option<nat>,      // `precision`
    conv: CodeUnit)              // `type`

  /** A parse tree element: a string or a placeholder record. */
  datatype Node = Literal(text: JsString) | Placeholder(d: Directive)

  /** The conversion letters `[b-gijostTuvxX]`: b c d e f g i j o s t T u v x X. */
  predicate IsConv(u: CodeUnit) {
    (0x62 <= u <= 0x67) || u == 0x69 || u == 0x6A || u == 0x6F || u == 0x73 || u == 0x74
    || u == 0x54 || u == 0x75 || u == 0x76 || u == 0x78 || u == 0x58
  }

  // ---------------------------------------------------------------------------
  // `re.text` and `re.modulo`

  /** Length of the longest prefix without `%` (`/^[^\x25]+/` matches when it is positive). */
  function TextRun(s: JsString): (n: nat)
    ensures n <= |s| && PERCENT !in s[..n]
    ensures n < |s| ==> s[n] == PERCENT
  {
    if |s| == 0 || s[0] == PERCENT then 0
    else
      var k := TextRun(s[1..]);
      assert s[..k + 1] == [s[0]] + s[1..][..k];
      k + 1
  }

  /** `re.modulo`: two `%` signs. */
  predicate IsModulo(s: JsString) {
    |s| >= 2 && s[0] == PERCENT && s[1] == PERCENT
  }

  // ---------------------------------------------------------------------------
  // `re.placeholder`:
  // `%` [ `[1-9]\d*$` | `([^)]+)` ] [`+`] [`0` | `'` any-but-`$`] [`-`] [`\d+`] [`.\d+`] conversion

  // What a matcher returns: its groups and the text after them.
  type ArgGroups = (Option<JsString>, Option<JsString>, JsString)
  type FlagGroup = (bool, JsString)
  type OptionalGroup = (Option<JsString>, JsString)
  type Matched = (RawMatch, JsString)
  /** A key after the first and how many units its accessor takes. */
  type KeyMatch = (JsString, nat)
  /** A node and how many units of the format it takes. */
  type NodeStep = (Node, nat)

  /** The capture groups of one `re.placeholder` match, as texts. */
  datatype RawMatch = RawMatch(
    paramNo: Option<JsString>,
    field: Option<JsString>,
    plus: bool,
    pad: Option<JsString>,
    minus: bool,
    width: Option<JsString>,
    precision: Option<JsString>,
    conv: CodeUnit)

  function OptText(o: Option<JsString>): JsString {
    if o.Some? then o.value else []
  }

  function FlagText(b: bool, c: CodeUnit): JsString {
    if b then [c] else []
  }

  function ArgText(paramNo: Option<JsString>, field: Option<JsString>): JsString {
    if paramNo.Some? then paramNo.value + [DOLLAR]
    else if field.Some? then [LPAREN] + field.value + [RPAREN]
    else []
  }

  function PrecisionText(p: Option<JsString>): JsString {
    if p.Some? then [DOT] + p.value else []
  }

  predicate IsPadText(p: JsString) {
    p == [ZERO] || (|p| == 2 && p[0] == QUOTE && p[1] != DOLLAR)
  }

  /** What the pattern can capture, group by group. */
  predicate WellFormed(m: RawMatch) {
    && !(m.paramNo.Some? && m.field.Some?)
    && (m.paramNo.Some? ==> IsDigits(m.paramNo.value) && IsNonZeroDigit(m.paramNo.value[0]))
    && (m.field.Some? ==> |m.field.value| > 0 && RPAREN !in m.field.value)
    && (m.pad.Some? ==> IsPadText(m.pad.value))
    && (m.width.Some? ==> IsDigits(m.width.value))
    && (m.precision.Some? ==> IsDigits(m.precision.value))
    && IsConv(m.conv)
    // a `0` where the pad may stand is taken as the pad, so a width never starts there
    && (m.pad.None? && !m.minus && m.width.Some? ==> m.width.value[0] != ZERO)
  }

  // The text of a match from each group on.
  function Text6(m: RawMatch): JsString { [m.conv] }
  function Text5(m: RawMatch): JsString { PrecisionText(m.precision) + Text6(m) }
  function Text4(m: RawMatch): JsString { OptText(m.width) + Text5(m) }
  function Text3(m: RawMatch): JsString { FlagText(m.minus, MINUS) + Text4(m) }
  function Text2(m: RawMatch): JsString { OptText(m.pad) + Text3(m) }
  function Text1(m: RawMatch): JsString { FlagText(m.plus, PLUS) + Text2(m) }

  /** The placeholder text a match stands for. */
  function MatchText(m: RawMatch): JsString {
    [PERCENT] + ArgText(m.paramNo, m.field) + Text1(m)
  }

  /** Index of the first `)` in `s`, or `|s|`. */
  function UpToRParen(s: JsString): (n: nat)
    ensures n <= |s| && RPAREN !in s[..n]
    ensures n < |s| ==> s[n] == RPAREN
  {
    if |s| == 0 || s[0] == RPAREN then 0
    else
      var k := UpToRParen(s[1..]);
      assert s[..k + 1] == [s[0]] + s[1..][..k];
      k + 1
  }

  /** The optional group `(?:([1-9]\d*)\$|\(([^)]+)\))`. */
  function ArgPart(s: JsString): (r: ArgGroups)
    ensures s == ArgText(r.0, r.1) + r.2
    ensures !(r.0.Some? && r.1.Some?)
    ensures r.0.Some? ==> IsDigits(r.0.value) && IsNonZeroDigit(r.0.value[0])
    ensures r.1.Some? ==> |r.1.value| > 0 && RPAREN !in r.1.value
  {
    if |s| > 0 && IsNonZeroDigit(s[0]) then
      var n := DigitRun(s);
      if n < |s| && s[n] == DOLLAR then
        assert s == s[..n] + [DOLLAR] + s[n + 1..];
        (Some(s[..n]), None, s[n + 1..])
      else (None, None, s)
    else if |s| > 0 && s[0] == LPAREN then
      var k := UpToRParen(s[1..]);
      if 0 < k < |s| - 1 then
        assert s == [LPAREN] + s[1..k + 1] + [RPAREN] + s[k + 2..];
        (None, Some(s[1..k + 1]), s[k + 2..])
      else (None, None, s)
    else (None, None, s)
  }

  /** An optional one-character group such as `(\+)?` and `(-)?`. */
  function FlagPart(s: JsString, c: CodeUnit): (r: FlagGroup)
    ensures s == FlagText(r.0, c) + r.1
    ensures r.0 <==> |s| > 0 && s[0] == c
  {
    if |s| > 0 && s[0] == c then (true, s[1..]) else (false, s)
  }

  /** The optional group `(0|'[^$])`. */
  function PadPart(s: JsString): (r: OptionalGroup)
    ensures s == OptText(r.0) + r.1
    ensures r.0.Some? ==> IsPadText(r.0.value)
    ensures r.0.None? ==> |s| == 0 || (s[0] != ZERO && !(|s| >= 2 && s[0] == QUOTE && s[1] != DOLLAR))
  {
    if |s| > 0 && s[0] == ZERO then (Some([ZERO]), s[1..])
    else if |s| >= 2 && s[0] == QUOTE && s[1] != DOLLAR then (Some(s[..2]), s[2..])
    else (None, s)
  }

  /** The optional group `(\d+)`. */
  function DigitsPart(s: JsString): (r: OptionalGroup)
    ensures s == OptText(r.0) + r.1
    ensures r.0.Some? ==> IsDigits(r.0.value)
    ensures r.0.None? ==> |s| == 0 || !IsDigit(s[0])
  {
    var n := DigitRun(s);
    if n > 0 then (Some(s[..n]), s[n..]) else (None, s)
  }

  /** The optional group `(?:\.(\d+))`. */
  function PrecisionPart(s: JsString): (r: OptionalGroup)
    ensures s == PrecisionText(r.0) + r.1
    ensures r.0.Some? ==> IsDigits(r.0.value)
  {
    if |s| > 0 && s[0] == DOT && DigitRun(s[1..]) > 0 then
      var n := DigitRun(s[1..]);
      assert s == [DOT] + s[1..][..n] + s[1 + n..];
      (Some(s[1..][..n]), s[1 + n..])
    else (None, s)
  }

  /**
   * `re.placeholder.exec(s)`: the groups of the match at the start of `s` and
   * the text after it. Each optional group is taken whenever it matches; the
   * pattern never needs to backtrack into a group it took.
   */
  function MatchPlaceholder(s: JsString): (r: Option<Matched>)
    ensures r.Some? ==> WellFormed(r.value.0) && s == MatchText(r.value.0) + r.value.1
  {
    if |s| == 0 || s[0] != PERCENT then None
    else
      var arg := ArgPart(s[1..]);
      var plus := FlagPart(arg.2, PLUS);
      var pad := PadPart(plus.1);
      var minus := FlagPart(pad.1, MINUS);
      var width := DigitsPart(minus.1);
      var precision := PrecisionPart(width.1);
      var s6 := precision.1;
      if |s6| > 0 && IsConv(s6[0]) then
        var m := RawMatch(arg.0, arg.1, plus.0, pad.0, minus.0, width.0, precision.0, s6[0]);
        MatchPlaceholderParts(s, m, arg.2, plus.1, pad.1, minus.1, width.1, s6);
        MatchPlaceholderWellFormed(m, plus.1, pad.1, minus.1);
        Some((m, s6[1..]))
      else None
  }

  /** How the groups of a match put back together give the text it was matched from. */
  lemma MatchPlaceholderParts(s: JsString, m: RawMatch, s1: JsString, s2: JsString, s3: JsString,
                              s4: JsString, s5: JsString, s6: JsString)
    requires |s| > 0 && s[0] == PERCENT && |s6| > 0 && m.conv == s6[0]
    requires s[1..] == ArgText(m.paramNo, m.field) + s1
    requires s1 == FlagText(m.plus, PLUS) + s2
    requires s2 == OptText(m.pad) + s3
    requires s3 == FlagText(m.minus, MINUS) + s4
    requires s4 == OptText(m.width) + s5
    requires s5 == PrecisionText(m.precision) + s6
    ensures s == MatchText(m) + s6[1..]
  {
    Reassemble(s, ArgText(m.paramNo, m.field), FlagText(m.plus, PLUS), OptText(m.pad),
      FlagText(m.minus, MINUS), OptText(m.width), PrecisionText(m.precision), s1, s2, s3, s4, s5, s6);
  }

  lemma Reassemble(s: JsString, a0: JsString, a1: JsString, a2: JsString, a3: JsString, a4: JsString,
                   a5: JsString, s1: JsString, s2: JsString, s3: JsString, s4: JsString, s5: JsString, s6: JsString)
    requires |s| > 0 && s[0] == PERCENT && |s6| > 0
    requires s[1..] == a0 + s1 && s1 == a1 + s2 && s2 == a2 + s3 && s3 == a3 + s4 && s4 == a4 + s5 && s5 == a5 + s6
    ensures s == [PERCENT] + a0 + (a1 + (a2 + (a3 + (a4 + (a5 + [s6[0]]))))) + s6[1..]
  {
    var tail := s6[1..];
    assert s6 == [s6[0]] + tail;
    Glue(a5, [s6[0]], tail, s5);
    Glue(a4, a5 + [s6[0]], tail, s4);
    Glue(a3, a4 + (a5 + [s6[0]]), tail, s3);
    Glue(a2, a3 + (a4 + (a5 + [s6[0]])), tail, s2);
    Glue(a1, a2 + (a3 + (a4 + (a5 + [s6[0]]))), tail, s1);
    Glue(a0, a1 + (a2 + (a3 + (a4 + (a5 + [s6[0]])))), tail, s[1..]);
    assert s == [PERCENT] + s[1..];
  }

  lemma Glue(a: JsString, b: JsString, tail: JsString, s: JsString)
    requires s == a + (b + tail)
    ensures s == (a + b) + tail
  {
  }

  /** The groups of a match, checked one by one, make a well-formed match. */
  lemma MatchPlaceholderWellFormed(m: RawMatch, s2: JsString, s3: JsString, s4: JsString)
    requires IsConv(m.conv)
    requires !(m.paramNo.Some? && m.field.Some?)
    requires m.paramNo.Some? ==> IsDigits(m.paramNo.value) && IsNonZeroDigit(m.paramNo.value[0])
    requires m.field.Some? ==> |m.field.value| > 0 && RPAREN !in m.field.value
    requires m.pad.Some? ==> IsPadText(m.pad.value)
    requires m.pad.None? ==> |s2| == 0 || s2[0] != ZERO
    requires m.pad.None? ==> s2 == s3
    requires s3 == FlagText(m.minus, MINUS) + s4
    requires m.width.Some? ==> IsDigits(m.width.value)
    requires m.width.Some? ==> |s4| > 0 && s4[0] == m.width.value[0]
    requires m.precision.Some? ==> IsDigits(m.precision.value)
    ensures WellFormed(m)
  {
  }

  // ---------------------------------------------------------------------------
  // Key paths: `re.key`, then `re.key_access` / `re.index_access` until the field is used up

  /** The key and length of the accessor `.identifier` or `[digits]` at the start of `s`. */
  function Accessor(s: JsString): (r: Option<KeyMatch>)
    ensures r.Some? ==> 0 < r.value.1 <= |s| && s[..(r.value.1)] == AccessorText(r.value.0)
    ensures r.Some? ==> IsIdentifier(r.value.0) || IsDigits(r.value.0)
  {
    if |s| > 0 && s[0] == DOT && IdentRun(s[1..]) > 0 then
      var n := IdentRun(s[1..]);
      assert s[..1 + n] == [DOT] + s[1..][..n];
      Some((s[1..][..n], 1 + n))
    else if |s| > 0 && s[0] == LBRACKET && DigitRun(s[1..]) > 0
      && 1 + DigitRun(s[1..]) < |s| && s[1 + DigitRun(s[1..])] == RBRACKET then
      var n := DigitRun(s[1..]);
      assert s[..2 + n] == [LBRACKET] + s[1..][..n] + [RBRACKET];
      assert !IsIdentStart(s[1..][..n][0]);
      Some((s[1..][..n], 2 + n))
    else None
  }

  /** How a key after the first is written: `.identifier` or `[digits]`. */
  function AccessorText(k: JsString): JsString {
    if IsIdentifier(k) then [DOT] + k else [LBRACKET] + k + [RBRACKET]
  }

  function AccessorsText(ks: seq<JsString>): JsString {
    if |ks| == 0 then [] else AccessorText(ks[0]) + AccessorsText(ks[1..])
  }

  /** Keys after the first: identifiers or digit strings. */
  predicate AllKeys(ks: seq<JsString>) {
    forall i | 0 <= i < |ks| :: IsIdentifier(ks[i]) || IsDigits(ks[i])
  }

  lemma AllKeysCons(key: JsString, rest: seq<JsString>)
    requires IsIdentifier(key) || IsDigits(key)
    requires AllKeys(rest)
    ensures AllKeys([key] + rest)
  {
    var ks := [key] + rest;
    forall i | 0 <= i < |ks| ensures IsIdentifier(ks[i]) || IsDigits(ks[i]) {
      if i > 0 {
        assert ks[i] == rest[i - 1];
      }
    }
  }

  /** A key path: an identifier, then identifiers or digit strings. */
  predicate ValidKeys(keys: seq<JsString>) {
    |keys| > 0 && IsIdentifier(keys[0]) && AllKeys(keys[1..])
  }

  /** The field text a key path is written as. */
  function KeysText(keys: seq<JsString>): JsString
    requires |keys| > 0
  {
    keys[0] + AccessorsText(keys[1..])
  }

  function Accessors(s: JsString): (r: Result<seq<JsString>>)
    ensures r.Err? ==> r.error == BadNamedKey
    ensures r.Ok? ==> AllKeys(r.value)
    decreases |s|
  {
    if |s| == 0 then Ok([])
    else match Accessor(s)
      case None => Err(BadNamedKey)
      case Some((key, n)) =>
        var rest :- Accessors(s[n..]);
        AllKeysCons(key, rest);
        Ok([key] + rest)
  }

  /** The `keys` list `sprintf_parse` builds from the text inside `(...)`. */
  function KeyPath(field: JsString): (r: Result<seq<JsString>>)
    ensures r.Err? ==> r.error == BadNamedKey
  {
    var n := IdentRun(field);
    if n == 0 then Err(BadNamedKey)
    else
      var rest :- Accessors(field[n..]);
      Ok([field[..n]] + rest)
  }

  /** The key-path loop of `sprintf_parse`. */
  method ParseKeyPath(field: JsString) returns (r: Result<seq<JsString>>)
    ensures r == KeyPath(field)
  {
    var n := IdentRun(field);
    if n == 0 {
      return Err(BadNamedKey);
    }
    var keys := [field[..n]];
    var rest := field[n..];
    while |rest| > 0
      invariant KeyPath(field) == PrependSeq(keys, Accessors(rest))
      decreases |rest|
    {
      var len: nat;
      var ident := if rest[0] == DOT then IdentRun(rest[1..]) else 0;
      if ident > 0 {
        var key := rest[1..][..ident];
        len := 1 + ident;
        assert Accessor(rest) == Some((key, len));
        PrependTwice(keys, [key], Accessors(rest[len..]));
        keys := keys + [key];
      } else {
        var digits := if rest[0] == LBRACKET then DigitRun(rest[1..]) else 0;
        if digits > 0 && 1 + digits < |rest| && rest[1 + digits] == RBRACKET {
          var key := rest[1..][..digits];
          len := 2 + digits;
          assert Accessor(rest) == Some((key, len));
          PrependTwice(keys, [key], Accessors(rest[len..]));
          keys := keys + [key];
        } else {
          assert Accessor(rest).None?;
          return Err(BadNamedKey);
        }
      }
      rest := rest[len..];
    }
    assert keys + [] == keys;
    return Ok(keys);
  }

  // ---------------------------------------------------------------------------
  // One step of the parse loop and the loop itself

  /** The source text a node was parsed from: `%` in a literal is written `%%`. */
  function SourceText(n: Node): JsString {
    match n
    case Literal(t) => Escape(t)
    case Placeholder(d) => d.raw
  }

  /** `t` with every `%` doubled: text without `%` stays as it is, and a lone `%` becomes `%%`. */
  function Escape(t: JsString): (r: JsString)
    ensures PERCENT !in t ==> r == t
    ensures t == [PERCENT] ==> r == [PERCENT, PERCENT]
  {
    if |t| == 0 then [] else (if t[0] == PERCENT then [PERCENT, PERCENT] else [t[0]]) + Escape(t[1..])
  }

  function NatOf(o: Option<JsString>): Option<nat> {
    if o.Some? then Some(DecimalValue(o.value)) else None
  }

  function DirectiveOf(raw: JsString, m: RawMatch, arg: ArgRef): Directive {
    Directive(raw, arg, m.plus, m.pad, m.minus, NatOf(m.width), NatOf(m.precision), m.conv)
  }

  function ArgRefOf(m: RawMatch): (r: Result<ArgRef>)
    ensures r.Err? ==> r.error == BadNamedKey && m.field.Some?
    ensures r.Ok? ==> (r.value.Named? <==> m.field.Some?)
  {
    if m.field.Some? then
      var keys :- KeyPath(m.field.value);
      Ok(Named(keys))
    else if m.paramNo.Some? then Ok(Explicit(DecimalValue(m.paramNo.value)))
    else Ok(Implicit)
  }

  /** One iteration of the parse loop without the mixing check: the node and how much it consumes. */
  function ParseStep(s: JsString): (r: Result<NodeStep>)
    requires |s| > 0
    ensures r.Ok? ==> 0 < r.value.1 <= |s| && SourceText(r.value.0) == s[..(r.value.1)]
    ensures r.Err? ==> r.error == UnexpectedPlaceholder || r.error == BadNamedKey
  {
    var t := TextRun(s);
    if t > 0 then Ok((Literal(s[..t]), t))
    else if IsModulo(s) then Ok((Literal([PERCENT]), 2))
    else PlaceholderStep(s)
  }

  /** The placeholder branch of the parse loop, before the mixing check. */
  function PlaceholderStep(s: JsString): (r: Result<NodeStep>)
    ensures r.Ok? ==> 0 < r.value.1 <= |s| && SourceText(r.value.0) == s[..(r.value.1)]
    ensures r.Err? ==> r.error == UnexpectedPlaceholder || r.error == BadNamedKey
  {
    var matched := MatchPlaceholder(s);
    if matched.None? then Err(UnexpectedPlaceholder)
    else
      var m := matched.value.0;
      var n := |s| - |matched.value.1|;
      assert s[..n] == MatchText(m);
      var arg := ArgRefOf(m);
      if arg.Err? then Err(arg.error)
      else Ok((Placeholder(DirectiveOf(s[..n], m, arg.value)), n))
  }

  /** A literal node is a maximal run of text without `%`, or the `%` that `%%` stands for. */
  lemma StepLiteral(s: JsString)
    requires |s| > 0 && ParseStep(s).Ok? && ParseStep(s).value.0.Literal?
    ensures (ParseStep(s).value.0.text == [PERCENT] && ParseStep(s).value.1 == 2 && IsModulo(s))
      || (PERCENT !in ParseStep(s).value.0.text && ParseStep(s).value.0.text == s[..ParseStep(s).value.1]
          && (ParseStep(s).value.1 < |s| ==> s[ParseStep(s).value.1] == PERCENT))
  {
  }

  /** A `%` is rejected as unexpected exactly when it starts neither `%%` nor a placeholder. */
  lemma StepUnexpected(s: JsString)
    requires |s| > 0
    ensures ParseStep(s) == Err(UnexpectedPlaceholder) <==>
      s[0] == PERCENT && !IsModulo(s) && MatchPlaceholder(s).None?
  {
  }

  /** The bit a node ORs into `arg_names`: 1 for a named placeholder, 2 for a positional one. */
  function FlagBit(n: Node): bv2 {
    if n.Literal? then 0 else if n.d.arg.Named? then 1 else 2
  }

  /** The parse loop from some point on, `flags` being `arg_names` so far. */
  function ParseFrom(s: JsString, flags: bv2): Result<seq<Node>>
    decreases |s|
  {
    if |s| == 0 then Ok([])
    else
      var step :- ParseStep(s);
      var nextFlags := flags | FlagBit(step.0);
      if nextFlags == 3 then Err(MixedPlaceholders)
      else
        var rest :- ParseFrom(s[step.1..], nextFlags);
        Ok([step.0] + rest)
  }

  lemma StepPlaceholder(s: JsString)
    requires |s| > 0 && TextRun(s) == 0 && !IsModulo(s)
    ensures ParseStep(s) == PlaceholderStep(s)
  {
  }

  lemma ParseFromErr(s: JsString, flags: bv2)
    requires |s| > 0 && ParseStep(s).Err?
    ensures ParseFrom(s, flags) == Err(ParseStep(s).error)
  {
  }

  lemma ParseFromMixed(s: JsString, flags: bv2, node: Node, n: nat)
    requires |s| > 0 && ParseStep(s) == Ok((node, n)) && flags | FlagBit(node) == 3
    ensures ParseFrom(s, flags) == Err(MixedPlaceholders)
  {
  }

  lemma ParseFromCons(s: JsString, flags: bv2, node: Node, n: nat)
    requires |s| > 0 && ParseStep(s) == Ok((node, n)) && flags | FlagBit(node) != 3
    ensures ParseFrom(s, flags) == PrependSeq([node], ParseFrom(s[n..], flags | FlagBit(node)))
  {
  }

  /** The parse tree of a format string, or the error `sprintf_parse` throws. */
  function ParseTree(fmt: JsString): Result<seq<Node>> {
    ParseFrom(fmt, 0)
  }

  /** The body of the loop of `sprintf_parse` up to the mixing check: match one node at the start of `rest`. */
  method NextNode(rest: JsString) returns (r: Result<NodeStep>)
    requires |rest| > 0
    ensures r == ParseStep(rest)
  {
    var textLen := TextRun(rest);
    if textLen > 0 {
      return Ok((Literal(rest[..textLen]), textLen));
    } else if IsModulo(rest) {
      return Ok((Literal([PERCENT]), 2));
    }
    StepPlaceholder(rest);
    var matched := MatchPlaceholder(rest);
    if matched.None? {
      return Err(UnexpectedPlaceholder);
    }
    var m := matched.value.0;
    var consumed := |rest| - |matched.value.1|;
    var arg: ArgRef;
    if m.field.Some? {
      var keys := ParseKeyPath(m.field.value);
      if keys.Err? {
        return Err(keys.error);
      }
      arg := Named(keys.value);
    } else {
      arg := if m.paramNo.Some? then Explicit(DecimalValue(m.paramNo.value)) else Implicit;
    }
    return Ok((Placeholder(DirectiveOf(rest[..consumed], m, arg)), consumed));
  }

  /** The loop of `sprintf_parse`: parse node after node, watching for a mix of named and positional placeholders. */
  method ParseFormat(fmt: JsString) returns (r: Result<seq<Node>>)
    ensures r == ParseTree(fmt)
  {
    var rest := fmt;
    var tree: seq<Node> := [];
    var argNames: bv2 := 0;
    PrependNil(ParseTree(fmt));
    while |rest| > 0
      invariant argNames != 3
      invariant ParseTree(fmt) == PrependSeq(tree, ParseFrom(rest, argNames))
      decreases |rest|
    {
      var step := NextNode(rest);
      if step.Err? {
        ParseFromErr(rest, argNames);
        return Err(step.error);
      }
      var (node, consumed) := step.value;
      if (argNames | FlagBit(node)) == 3 {
        ParseFromMixed(rest, argNames, node, consumed);
        return Err(MixedPlaceholders);
      }
      ParseFromCons(rest, argNames, node, consumed);
      argNames := argNames | FlagBit(node);
      PrependTwice(tree, [node], ParseFrom(rest[consumed..], argNames));
      tree := tree + [node];
      rest := rest[consumed..];
    }
    assert tree + [] == tree;
    return Ok(tree);
  }

  // ---------------------------------------------------------------------------
  // The matcher takes exactly what the pattern describes

  lemma FlagPartOf(b: bool, c: CodeUnit, t: JsString)
    requires !b ==> |t| == 0 || t[0] != c
    ensures FlagPart(FlagText(b, c) + t, c) == (b, t)
  {
    if b {
      assert (FlagText(b, c) + t)[1..] == t;
    } else {
      assert FlagText(b, c) + t == t;
    }
  }

  lemma DigitsPartOf(w: Option<JsString>, t: JsString)
    requires w.Some? ==> IsDigits(w.value)
    requires |t| == 0 || !IsDigit(t[0])
    ensures DigitsPart(OptText(w) + t) == (w, t)
  {
    if w.Some? {
      DigitRunOfDigits(w.value, t);
      assert (w.value + t)[..|w.value|] == w.value;
      assert (w.value + t)[|w.value|..] == t;
    } else {
      assert OptText(w) + t == t;
    }
  }

  lemma PrecisionPartOf(p: Option<JsString>, t: JsString)
    requires p.Some? ==> IsDigits(p.value)
    requires |t| > 0 && t[0] != DOT && !IsDigit(t[0])
    ensures PrecisionPart(PrecisionText(p) + t) == (p, t)
  {
    if p.Some? {
      var s := [DOT] + p.value + t;
      assert s[1..] == p.value + t;
      DigitRunOfDigits(p.value, t);
      assert s[1..][..|p.value|] == p.value;
      assert s[1 + |p.value|..] == t;
    } else {
      assert PrecisionText(p) + t == t;
    }
  }

  lemma PadPartOf(pad: Option<JsString>, t: JsString)
    requires pad.Some? ==> IsPadText(pad.value)
    requires pad.None? ==> |t| == 0 || (t[0] != ZERO && t[0] != QUOTE)
    ensures PadPart(OptText(pad) + t) == (pad, t)
  {
    if pad.Some? {
      var s := pad.value + t;
      if pad.value == [ZERO] {
        assert s[1..] == t;
      } else {
        assert s[..2] == pad.value && s[2..] == t;
      }
    } else {
      assert OptText(pad) + t == t;
    }
  }

  lemma ArgPartOf(paramNo: Option<JsString>, field: Option<JsString>, t: JsString)
    requires !(paramNo.Some? && field.Some?)
    requires paramNo.Some? ==> IsDigits(paramNo.value) && IsNonZeroDigit(paramNo.value[0])
    requires field.Some? ==> |field.value| > 0 && RPAREN !in field.value
    requires paramNo.None? && field.None? ==>
      |t| == 0 || (t[0] != LPAREN && (IsNonZeroDigit(t[0]) ==> DigitRun(t) == |t| || t[DigitRun(t)] != DOLLAR))
    ensures ArgPart(ArgText(paramNo, field) + t) == (paramNo, field, t)
  {
    if paramNo.Some? {
      ArgPartOfIndex(paramNo.value, t);
    } else if field.Some? {
      ArgPartOfField(field.value, t);
    } else {
      assert ArgText(paramNo, field) + t == t;
    }
  }

  lemma ArgPartOfIndex(d: JsString, t: JsString)
    requires IsDigits(d) && IsNonZeroDigit(d[0])
    ensures ArgPart(d + [DOLLAR] + t) == (Some(d), None, t)
  {
    var s := d + [DOLLAR] + t;
    assert s == d + ([DOLLAR] + t);
    DigitRunOfDigits(d, [DOLLAR] + t);
    assert s[..|d|] == d && s[|d|] == DOLLAR && s[|d| + 1..] == t;
  }

  lemma ArgPartOfField(f: JsString, t: JsString)
    requires |f| > 0 && RPAREN !in f
    ensures ArgPart([LPAREN] + f + [RPAREN] + t) == (None, Some(f), t)
  {
    var s := [LPAREN] + f + [RPAREN] + t;
    assert s[1..] == f + ([RPAREN] + t);
    UpToRParenOf(f, [RPAREN] + t);
    assert s[1..|f| + 1] == f && s[|f| + 2..] == t;
  }

  lemma {:induction false} UpToRParenOf(f: JsString, t: JsString)
    requires RPAREN !in f && |t| > 0 && t[0] == RPAREN
    ensures UpToRParen(f + t) == |f|
  {
    if |f| > 0 {
      assert (f + t)[1..] == f[1..] + t;
      UpToRParenOf(f[1..], t);
    } else {
      assert f + t == t;
    }
  }

  /** Whatever a well-formed match stands for, the matcher reads it back, whatever follows. */
  lemma MatchPlaceholderComplete(m: RawMatch, tail: JsString)
    requires WellFormed(m)
    ensures MatchPlaceholder(MatchText(m) + tail) == Some((m, tail))
  {
    var s := MatchText(m) + tail;
    GroupsComplete(m, tail);
    MatchPlaceholderOfParts(s, m, Text1(m) + tail, Text2(m) + tail, Text3(m) + tail, Text4(m) + tail,
      Text5(m) + tail, Text6(m) + tail, tail);
  }

  /** Each group of the pattern, taken in turn, reads back its part of the text of a well-formed match. */
  lemma GroupsComplete(m: RawMatch, tail: JsString)
    requires WellFormed(m)
    ensures |MatchText(m) + tail| > 0 && (MatchText(m) + tail)[0] == PERCENT
    ensures ArgPart((MatchText(m) + tail)[1..]) == (m.paramNo, m.field, Text1(m) + tail)
    ensures FlagPart(Text1(m) + tail, PLUS) == (m.plus, Text2(m) + tail)
      && PadPart(Text2(m) + tail) == (m.pad, Text3(m) + tail)
      && FlagPart(Text3(m) + tail, MINUS) == (m.minus, Text4(m) + tail)
      && DigitsPart(Text4(m) + tail) == (m.width, Text5(m) + tail)
      && PrecisionPart(Text5(m) + tail) == (m.precision, Text6(m) + tail)
  {
    ArgGroupComplete(m, tail);
    PlusComplete(m, tail);
  }

  lemma ArgGroupComplete(m: RawMatch, tail: JsString)
    requires WellFormed(m)
    ensures |MatchText(m) + tail| > 0 && (MatchText(m) + tail)[0] == PERCENT
    ensures ArgPart((MatchText(m) + tail)[1..]) == (m.paramNo, m.field, Text1(m) + tail)
  {
    var s := MatchText(m) + tail;
    assert s[1..] == ArgText(m.paramNo, m.field) + (Text1(m) + tail);
    if m.paramNo.None? && m.field.None? {
      NoArgPrefix(m, tail);
    }
    ArgPartOf(m.paramNo, m.field, Text1(m) + tail);
  }

  lemma MatchPlaceholderOfParts(s: JsString, m: RawMatch, t1: JsString, t2: JsString, t3: JsString,
                                t4: JsString, t5: JsString, t6: JsString, tail: JsString)
    requires |s| > 0 && s[0] == PERCENT && t6 == [m.conv] + tail && IsConv(m.conv)
    requires ArgPart(s[1..]) == (m.paramNo, m.field, t1)
    requires FlagPart(t1, PLUS) == (m.plus, t2)
    requires PadPart(t2) == (m.pad, t3)
    requires FlagPart(t3, MINUS) == (m.minus, t4)
    requires DigitsPart(t4) == (m.width, t5)
    requires PrecisionPart(t5) == (m.precision, t6)
    ensures MatchPlaceholder(s) == Some((m, tail))
  {
    assert t6[0] == m.conv && t6[1..] == tail;
  }

  /** Without an argument reference, what follows the `%` cannot be mistaken for one. */
  lemma NoArgPrefix(m: RawMatch, tail: JsString)
    requires WellFormed(m) && m.paramNo.None? && m.field.None?
    ensures |Text1(m) + tail| > 0 && (Text1(m) + tail)[0] != LPAREN
    ensures IsNonZeroDigit((Text1(m) + tail)[0]) ==>
      DigitRun(Text1(m) + tail) == |Text1(m) + tail| || (Text1(m) + tail)[DigitRun(Text1(m) + tail)] != DOLLAR
  {
    var t1 := Text1(m) + tail;
    TextHeads(m);
    assert t1[0] == Text1(m)[0];
    if !m.plus && m.pad.None? && !m.minus && m.width.Some? {
      var t5 := Text5(m) + tail;
      assert Text1(m) == m.width.value + Text5(m);
      assert t1 == m.width.value + t5;
      assert t5[0] == Text5(m)[0];
      DigitRunOfDigits(m.width.value, t5);
    }
  }

  lemma PlusComplete(m: RawMatch, tail: JsString)
    requires WellFormed(m)
    ensures FlagPart(Text1(m) + tail, PLUS) == (m.plus, Text2(m) + tail)
    ensures PadPart(Text2(m) + tail) == (m.pad, Text3(m) + tail)
    ensures FlagPart(Text3(m) + tail, MINUS) == (m.minus, Text4(m) + tail)
    ensures DigitsPart(Text4(m) + tail) == (m.width, Text5(m) + tail)
    ensures PrecisionPart(Text5(m) + tail) == (m.precision, Text6(m) + tail)
  {
    TextHeads(m);
    assert Text1(m) + tail == FlagText(m.plus, PLUS) + (Text2(m) + tail);
    FlagPartOf(m.plus, PLUS, Text2(m) + tail);
    PadComplete(m, tail);
  }

  lemma PadComplete(m: RawMatch, tail: JsString)
    requires WellFormed(m)
    ensures PadPart(Text2(m) + tail) == (m.pad, Text3(m) + tail)
    ensures FlagPart(Text3(m) + tail, MINUS) == (m.minus, Text4(m) + tail)
    ensures DigitsPart(Text4(m) + tail) == (m.width, Text5(m) + tail)
    ensures PrecisionPart(Text5(m) + tail) == (m.precision, Text6(m) + tail)
  {
    TextHeads(m);
    assert Text2(m) + tail == OptText(m.pad) + (Text3(m) + tail);
    PadPartOf(m.pad, Text3(m) + tail);
    MinusComplete(m, tail);
  }

  lemma MinusComplete(m: RawMatch, tail: JsString)
    requires WellFormed(m)
    ensures FlagPart(Text3(m) + tail, MINUS) == (m.minus, Text4(m) + tail)
    ensures DigitsPart(Text4(m) + tail) == (m.width, Text5(m) + tail)
    ensures PrecisionPart(Text5(m) + tail) == (m.precision, Text6(m) + tail)
  {
    TextHeads(m);
    assert Text3(m) + tail == FlagText(m.minus, MINUS) + (Text4(m) + tail);
    FlagPartOf(m.minus, MINUS, Text4(m) + tail);
    WidthComplete(m, tail);
  }

  lemma WidthComplete(m: RawMatch, tail: JsString)
    requires WellFormed(m)
    ensures DigitsPart(Text4(m) + tail) == (m.width, Text5(m) + tail)
    ensures PrecisionPart(Text5(m) + tail) == (m.precision, Text6(m) + tail)
  {
    TextHeads(m);
    assert Text4(m) + tail == OptText(m.width) + (Text5(m) + tail);
    DigitsPartOf(m.width, Text5(m) + tail);
    PrecisionComplete(m, tail);
  }

  lemma PrecisionComplete(m: RawMatch, tail: JsString)
    requires WellFormed(m)
    ensures PrecisionPart(Text5(m) + tail) == (m.precision, Text6(m) + tail)
  {
    assert Text5(m) + tail == PrecisionText(m.precision) + (Text6(m) + tail);
    PrecisionPartOf(m.precision, Text6(m) + tail);
  }

  lemma TextHeads(m: RawMatch)
    requires WellFormed(m)
    ensures Text5(m)[0] == if m.precision.Some? then DOT else m.conv
    ensures Text4(m)[0] == if m.width.Some? then m.width.value[0] else Text5(m)[0]
    ensures Text3(m)[0] == if m.minus then MINUS else Text4(m)[0]
    ensures Text2(m)[0] == if m.pad.Some? then m.pad.value[0] else Text3(m)[0]
    ensures Text1(m)[0] == if m.plus then PLUS else Text2(m)[0]
  {
  }

  /** `re.placeholder` matches at the start of `s` exactly when `s` starts with the text of a well-formed match. */
  lemma MatchPlaceholderIff(s: JsString, m: RawMatch, tail: JsString)
    ensures MatchPlaceholder(s) == Some((m, tail)) <==> WellFormed(m) && s == MatchText(m) + tail
  {
    if WellFormed(m) && s == MatchText(m) + tail {
      MatchPlaceholderComplete(m, tail);
    }
  }

  // ---------------------------------------------------------------------------
  // Key paths read back from the text they are written as

  lemma AccessorOf(k: JsString, rest: JsString)
    requires IsIdentifier(k) || IsDigits(k)
    requires |rest| == 0 || rest[0] == DOT || rest[0] == LBRACKET
    ensures Accessor(AccessorText(k) + rest) == Some((k, |AccessorText(k)|))
  {
    if IsIdentifier(k) {
      KeyAccessOf(k, rest);
    } else {
      assert !IsIdentStart(k[0]);
      IndexAccessOf(k, rest);
    }
  }

  lemma KeyAccessOf(k: JsString, rest: JsString)
    requires IsIdentifier(k)
    requires |rest| == 0 || rest[0] == DOT || rest[0] == LBRACKET
    ensures Accessor([DOT] + k + rest) == Some((k, 1 + |k|))
  {
    var s := [DOT] + k + rest;
    assert s[1..] == k + rest;
    IdentRunOf(k, rest);
    assert s[1..][..|k|] == k;
  }

  lemma IndexAccessOf(k: JsString, rest: JsString)
    requires IsDigits(k) && !IsIdentStart(k[0])
    ensures Accessor([LBRACKET] + k + [RBRACKET] + rest) == Some((k, 2 + |k|))
  {
    var s := [LBRACKET] + k + [RBRACKET] + rest;
    assert s[1..] == k + ([RBRACKET] + rest);
    DigitRunOfDigits(k, [RBRACKET] + rest);
    assert s[1..][..|k|] == k;
    assert s[1 + |k|] == RBRACKET;
  }

  lemma {:induction false} AccessorsOfText(ks: seq<JsString>)
    requires AllKeys(ks)
    ensures Accessors(AccessorsText(ks)) == Ok(ks)
  {
    if |ks| > 0 {
      var tailText := AccessorsText(ks[1..]);
      AccessorsTextHead(ks[1..]);
      AccessorOf(ks[0], tailText);
      var s := AccessorText(ks[0]) + tailText;
      assert s[|AccessorText(ks[0])|..] == tailText;
      AccessorsOfText(ks[1..]);
      assert [ks[0]] + ks[1..] == ks;
    }
  }

  lemma AccessorsTextHead(ks: seq<JsString>)
    ensures AccessorsText(ks) == [] || AccessorsText(ks)[0] == DOT || AccessorsText(ks)[0] == LBRACKET
  {
  }

  lemma {:induction false} TextOfAccessors(s: JsString, ks: seq<JsString>)
    requires Accessors(s) == Ok(ks)
    ensures AccessorsText(ks) == s
    decreases |s|
  {
    if |s| > 0 {
      var key := Accessor(s).value.0;
      var n := Accessor(s).value.1;
      var rest := Accessors(s[n..]).value;
      assert ks == [key] + rest;
      TextOfAccessors(s[n..], rest);
      assert ks[0] == key && ks[1..] == rest;
      calc {
        AccessorsText(ks);
        AccessorText(key) + AccessorsText(rest);
        s[..n] + s[n..];
        { TakeDrop(s, n); }
        s;
      }
    }
  }

  /** Every key path is read back from the text it is written as. */
  lemma KeyPathOfText(keys: seq<JsString>)
    requires ValidKeys(keys)
    ensures KeyPath(KeysText(keys)) == Ok(keys)
  {
    var field := KeysText(keys);
    AccessorsTextHead(keys[1..]);
    IdentRunOf(keys[0], AccessorsText(keys[1..]));
    assert field[..|keys[0]|] == keys[0];
    assert field[|keys[0]|..] == AccessorsText(keys[1..]);
    AccessorsOfText(keys[1..]);
    assert [keys[0]] + keys[1..] == keys;
  }

  /** What the key-path loop accepts is a valid key path, and it is the text the path is written as. */
  lemma TextOfKeyPath(field: JsString, keys: seq<JsString>)
    requires KeyPath(field) == Ok(keys)
    ensures ValidKeys(keys) && KeysText(keys) == field
  {
    KeyPathParts(field, keys);
    var n := IdentRun(field);
    var head := field[..n];
    var tail := field[n..];
    TextOfAccessors(tail, keys[1..]);
    assert IsIdentifier(keys[0]) && AllKeys(keys[1..]);
    calc {
      KeysText(keys);
      keys[0] + AccessorsText(keys[1..]);
      head + tail;
      { TakeDrop(field, n); }
      field;
    }
  }

  lemma KeyPathParts(field: JsString, keys: seq<JsString>)
    requires KeyPath(field) == Ok(keys)
    ensures IdentRun(field) > 0 && |keys| > 0 && keys[0] == field[..IdentRun(field)]
    ensures Accessors(field[IdentRun(field)..]) == Ok(keys[1..])
  {
    var n := IdentRun(field);
    var rest := Accessors(field[n..]).value;
    assert keys == [field[..n]] + rest;
    assert keys[1..] == rest;
  }

  // ---------------------------------------------------------------------------
  // The parse loop against a reference without the mixing check

  /** The nodes of a format string, parsed one after the other, ignoring how arguments are referred to. */
  function Tokens(s: JsString): Result<seq<Node>>
    decreases |s|
  {
    if |s| == 0 then Ok([])
    else
      var step :- ParseStep(s);
      var rest :- Tokens(s[step.1..]);
      Ok([step.0] + rest)
  }

  /** `arg_names` after a sequence of nodes. */
  function FlagsOf(t: seq<Node>): bv2 {
    if |t| == 0 then 0 else FlagBit(t[0]) | FlagsOf(t[1..])
  }

  predicate HasNamed(t: seq<Node>) {
    exists i | 0 <= i < |t| :: t[i].Placeholder? && t[i].d.arg.Named?
  }

  predicate HasPositional(t: seq<Node>) {
    exists i | 0 <= i < |t| :: t[i].Placeholder? && !t[i].d.arg.Named?
  }

  /** A format mixes the two ways of referring to arguments. */
  predicate Mixed(t: seq<Node>) {
    HasNamed(t) && HasPositional(t)
  }

  lemma {:induction false} FlagsOfBits(t: seq<Node>)
    ensures FlagsOf(t) & 1 == 1 <==> HasNamed(t)
    ensures FlagsOf(t) & 2 == 2 <==> HasPositional(t)
  {
    if |t| > 0 {
      FlagsOfBits(t[1..]);
      if HasNamed(t[1..]) {
        var i :| 0 <= i < |t[1..]| && t[1..][i].Placeholder? && t[1..][i].d.arg.Named?;
        assert t[i + 1] == t[1..][i];
      }
      if HasPositional(t[1..]) {
        var i :| 0 <= i < |t[1..]| && t[1..][i].Placeholder? && !t[1..][i].d.arg.Named?;
        assert t[i + 1] == t[1..][i];
      }
      if HasNamed(t) {
        var i :| 0 <= i < |t| && t[i].Placeholder? && t[i].d.arg.Named?;
        if i > 0 {
          assert t[1..][i - 1] == t[i];
        }
      }
      if HasPositional(t) {
        var i :| 0 <= i < |t| && t[i].Placeholder? && !t[i].d.arg.Named?;
        if i > 0 {
          assert t[1..][i - 1] == t[i];
        }
      }
    }
  }

  lemma FlagsOfMixed(t: seq<Node>)
    ensures FlagsOf(t) == 3 <==> Mixed(t)
  {
    FlagsOfBits(t);
  }

  /** The loop with `arg_names` already `flags`: the reference's nodes, unless the flags of all of them together are 3. */
  lemma {:induction false} ParseFromTokens(s: JsString, flags: bv2)
    requires flags != 3
    ensures ParseFrom(s, flags).Ok? ==> Tokens(s) == ParseFrom(s, flags) && (flags | FlagsOf(Tokens(s).value)) != 3
    ensures Tokens(s).Ok? ==>
      ParseFrom(s, flags) == if (flags | FlagsOf(Tokens(s).value)) == 3 then Err(MixedPlaceholders) else Tokens(s)
    decreases |s|
  {
    if |s| > 0 && ParseStep(s).Ok? {
      var (node, n) := ParseStep(s).value;
      var nextFlags := flags | FlagBit(node);
      if nextFlags != 3 {
        ParseFromTokens(s[n..], nextFlags);
        if Tokens(s[n..]).Ok? {
          var rest := Tokens(s[n..]).value;
          assert FlagsOf([node] + rest) == (FlagBit(node) | FlagsOf(rest)) by {
            assert ([node] + rest)[1..] == rest;
          }
        }
      } else if Tokens(s).Ok? {
        var rest := Tokens(s[n..]).value;
        assert ([node] + rest)[1..] == rest;
      }
    }
  }

  /**
   * A format string parses exactly when its nodes parse one by one and do not
   * mix named with positional placeholders; then the tree is those nodes. A mix
   * is reported once every node parses.
   */
  lemma ParseTreeTokens(fmt: JsString)
    ensures ParseTree(fmt).Ok? <==> Tokens(fmt).Ok? && !Mixed(Tokens(fmt).value)
    ensures ParseTree(fmt).Ok? ==> ParseTree(fmt) == Tokens(fmt)
    ensures Tokens(fmt).Ok? && Mixed(Tokens(fmt).value) ==> ParseTree(fmt) == Err(MixedPlaceholders)
  {
    ParseFromTokens(fmt, 0);
    if Tokens(fmt).Ok? {
      FlagsOfMixed(Tokens(fmt).value);
    }
    if ParseTree(fmt).Ok? {
      FlagsOfMixed(Tokens(fmt).value);
    }
  }

  // ---------------------------------------------------------------------------
  // The tree gives back the format string

  function Unparse(t: seq<Node>): JsString {
    if |t| == 0 then [] else SourceText(t[0]) + Unparse(t[1..])
  }

  lemma {:induction false} TokensUnparse(s: JsString, t: seq<Node>)
    requires Tokens(s) == Ok(t)
    ensures Unparse(t) == s
    decreases |s|
  {
    if |s| > 0 {
      var step := ParseStep(s);
      assert step.Ok?;
      var node := step.value.0;
      var n := step.value.1;
      var rest := Tokens(s[n..]).value;
      assert t == [node] + rest;
      TokensUnparse(s[n..], rest);
      assert t[0] == node && t[1..] == rest;
      calc {
        Unparse(t);
        SourceText(node) + Unparse(rest);
        s[..n] + s[n..];
        { TakeDrop(s, n); }
        s;
      }
    }
  }

  /** Writing the nodes of a parse tree back, `%` in literals as `%%`, gives the format string. */
  lemma ParseTreeUnparse(fmt: JsString, t: seq<Node>)
    requires ParseTree(fmt) == Ok(t)
    ensures Unparse(t) == fmt
  {
    ParseTreeTokens(fmt);
    TokensUnparse(fmt, t);
  }

  /** Text without `%` is one literal. */
  lemma PlainTextParse(fmt: JsString)
    requires |fmt| > 0 && PERCENT !in fmt
    ensures ParseTree(fmt) == Ok([Literal(fmt)])
  {
    assert TextRun(fmt) == |fmt|;
    assert fmt[..|fmt|] == fmt;
    assert ParseStep(fmt) == Ok((Literal(fmt), |fmt|));
    assert fmt[|fmt|..] == [];
    ParseFromCons(fmt, 0, Literal(fmt), |fmt|);
    assert [Literal(fmt)] + [] == [Literal(fmt)];
  }

  /** `%%` is a literal `%`. */
  lemma EscapedPercentParse()
    ensures ParseTree([PERCENT, PERCENT]) == Ok([Literal([PERCENT])])
  {
    var s := [PERCENT, PERCENT];
    assert TextRun(s) == 0;
    assert IsModulo(s);
    assert ParseStep(s) == Ok((Literal([PERCENT]), 2));
    assert s[2..] == [];
    ParseFromCons(s, 0, Literal([PERCENT]), 2);
    assert [Literal([PERCENT])] + [] == [Literal([PERCENT])];
  }

  // ---------------------------------------------------------------------------
  // What a parsed placeholder record looks like

  predicate ParsedDirective(d: Directive) {
    && IsConv(d.conv)
    && (d.pad.Some? ==> IsPadText(d.pad.value))
    && (d.arg.Named? ==> ValidKeys(d.arg.keys))
    && (d.arg.Explicit? ==> d.arg.index >= 1)
  }

  lemma PlaceholderStepDirective(s: JsString)
    requires PlaceholderStep(s).Ok?
    ensures PlaceholderStep(s).value.0.Placeholder? && ParsedDirective(PlaceholderStep(s).value.0.d)
  {
    var m := MatchPlaceholder(s).value.0;
    if m.field.Some? {
      TextOfKeyPath(m.field.value, KeyPath(m.field.value).value);
    } else if m.paramNo.Some? {
      DecimalPositive(m.paramNo.value);
    }
  }

  lemma StepDirective(s: JsString)
    requires |s| > 0 && ParseStep(s).Ok? && ParseStep(s).value.0.Placeholder?
    ensures ParsedDirective(ParseStep(s).value.0.d)
  {
    if TextRun(s) == 0 && !IsModulo(s) {
      StepPlaceholder(s);
      PlaceholderStepDirective(s);
    }
  }

  lemma {:induction false} TokensDirectives(s: JsString, t: seq<Node>)
    requires Tokens(s) == Ok(t)
    ensures AllParsed(t)
    decreases |s|
  {
    if |s| > 0 {
      var step := ParseStep(s).value;
      var rest := Tokens(s[step.1..]).value;
      TokensCons(s);
      if step.0.Placeholder? {
        StepDirective(s);
      }
      TokensDirectives(s[step.1..], rest);
      AllParsedCons(step.0, rest);
    }
  }

  /** Every placeholder of the tree looks like one the parser builds. */
  predicate AllParsed(tree: seq<Node>) {
    forall i | 0 <= i < |tree| :: tree[i].Placeholder? ==> ParsedDirective(tree[i].d)
  }

  lemma AllParsedCons(node: Node, rest: seq<Node>)
    requires node.Placeholder? ==> ParsedDirective(node.d)
    requires AllParsed(rest)
    ensures AllParsed([node] + rest)
  {
    var t := [node] + rest;
    forall i | 0 <= i < |t| && t[i].Placeholder? ensures ParsedDirective(t[i].d) {
      if i > 0 {
        assert t[i] == rest[i - 1];
      }
    }
  }

  lemma TokensCons(s: JsString)
    requires |s| > 0 && Tokens(s).Ok?
    ensures ParseStep(s).Ok? && Tokens(s[ParseStep(s).value.1..]).Ok?
    ensures Tokens(s).value == [ParseStep(s).value.0] + Tokens(s[ParseStep(s).value.1..]).value
  {
  }

  /**
   * Every placeholder of a parsed tree has a conversion letter, a valid pad, a
   * valid key path when named, and an argument number of at least 1 when explicit.
   */
  lemma ParseTreeDirectives(fmt: JsString, t: seq<Node>)
    requires ParseTree(fmt) == Ok(t)
    ensures AllParsed(t)
  {
    ParseTreeTokens(fmt);
    TokensDirectives(fmt, t);
  }
}
