/**
 * The interpreter of virya_io.js (`sprintf_format`): it walks a parse tree,
 * copies literals, and for each placeholder picks its argument, checks and
 * converts it, adds a sign and pads it to the width.
 */
module FormatRender {
  import opened JsText
  import opened Outcomes
  import opened Values
  import opened FormatParser

  /**
   * Floating-point and JSON text is the host's: what `String(arg)` gives after
   * `%e` (`toExponential`), `%f` (`toFixed` or `parseFloat`), `%g`
   * (`toPrecision` or `parseFloat`) and `%j` (`JSON.stringify`) converted the argument.
   */
  type HostText = (Directive, Value) -> JsString

  // The conversion letters.
  const BIN: CodeUnit := 0x62        // b
  const CHAR: CodeUnit := 0x63       // c
  const DEC: CodeUnit := 0x64        // d
  const EXP: CodeUnit := 0x65        // e
  const FIXED: CodeUnit := 0x66      // f
  const GENERAL: CodeUnit := 0x67    // g
  const INT: CodeUnit := 0x69        // i
  const JSON: CodeUnit := 0x6A       // j
  const OCT: CodeUnit := 0x6F        // o
  const STR: CodeUnit := 0x73        // s
  const BOOL: CodeUnit := 0x74       // t
  const TYPE: CodeUnit := 0x54       // T
  const UNSIGNED: CodeUnit := 0x75   // u
  const PRIMITIVE: CodeUnit := 0x76  // v
  const HEX: CodeUnit := 0x78        // x
  const HEX_UPPER: CodeUnit := 0x58  // X

  const UNDEFINED: JsString := [0x75, 0x6E, 0x64, 0x65, 0x66, 0x69, 0x6E, 0x65, 0x64]  // "undefined"
  const NAN: JsString := [0x4E, 0x61, 0x4E]  // "NaN"

  // The members a host TypeError or RangeError names.
  const TO_EXPONENTIAL: JsString :=  // "toExponential"
    [0x74, 0x6F, 0x45, 0x78, 0x70, 0x6F, 0x6E, 0x65, 0x6E, 0x74, 0x69, 0x61, 0x6C]
  const TO_FIXED: JsString := [0x74, 0x6F, 0x46, 0x69, 0x78, 0x65, 0x64]  // "toFixed"
  const TO_PRECISION: JsString := [0x74, 0x6F, 0x50, 0x72, 0x65, 0x63, 0x69, 0x73, 0x69, 0x6F, 0x6E]  // "toPrecision"
  const VALUE_OF: JsString := [0x76, 0x61, 0x6C, 0x75, 0x65, 0x4F, 0x66]  // "valueOf"
  const SUBSTRING: JsString := [0x73, 0x75, 0x62, 0x73, 0x74, 0x72, 0x69, 0x6E, 0x67]  // "substring"

  /** `re.numeric_arg`: the conversions that demand a number. */
  predicate IsNumericArg(c: CodeUnit) {
    c == BIN || c == CHAR || c == DEC || c == INT || c == EXP || c == FIXED || c == GENERAL || c == UNSIGNED || c == HEX || c == HEX_UPPER
  }

  /** `re.number`: the conversions that print a sign. */
  predicate IsNumber(c: CodeUnit) {
    c == DEC || c == INT || c == EXP || c == FIXED || c == GENERAL
  }

  /** `argv[i]`. */
  function ArgAt(argv: seq<Value>, i: nat): Value {
    if i < |argv| then argv[i] else Undef
  }

  predicate IsNullish(v: Value) {
    v.Undef? || v.Null?
  }

  // ---------------------------------------------------------------------------
  // Picking the argument

  /**
   * The key loop: before each key the value so far must not be `undefined` or
   * `null` (`arg == undefined`), else the error names the key and the key
   * before it (`parent`).
   */
  function WalkKeys(v: Value, keys: seq<JsString>, parent: JsString): (r: Result<Value>)
    ensures r.Err? ==> r.error.UndefinedProperty?
    decreases |keys|
  {
    if |keys| == 0 then Ok(v)
    else if IsNullish(v) then Err(UndefinedProperty(keys[0], parent))
    else WalkKeys(Property(v, keys[0]), keys[1..], keys[0])
  }

  /** The key loop of `sprintf_format`. */
  method Lookup(root: Value, keys: seq<JsString>) returns (r: Result<Value>)
    ensures r == WalkKeys(root, keys, UNDEFINED)
  {
    var arg := root;
    for k := 0 to |keys|
      invariant WalkKeys(root, keys, UNDEFINED) == WalkKeys(arg, keys[k..], if k == 0 then UNDEFINED else keys[k - 1])
    {
      assert keys[k..][1..] == keys[k + 1..];
      if IsNullish(arg) {
        return Err(UndefinedProperty(keys[k], if k == 0 then UNDEFINED else keys[k - 1]));
      }
      arg := Property(arg, keys[k]);
    }
    return Ok(arg);
  }

  /** `v[k]` for any value, `undefined` for `undefined` and `null`: the path a key list describes. */
  function Get(v: Value, k: JsString): Value {
    if IsNullish(v) then Undef else Property(v, k)
  }

  function Path(v: Value, keys: seq<JsString>): Value
    decreases |keys|
  {
    if |keys| == 0 then v else Path(Get(v, keys[0]), keys[1..])
  }

  lemma PathStep(v: Value, keys: seq<JsString>, i: nat)
    requires i < |keys|
    ensures Path(v, keys[..i + 1]) == Path(Get(v, keys[0]), keys[1..][..i])
  {
    assert keys[..i + 1][0] == keys[0];
    assert keys[..i + 1][1..] == keys[1..][..i];
  }

  /** The first prefix of the key path that ends at `undefined` or `null` is the one of length `i`. */
  predicate FirstNullish(v: Value, keys: seq<JsString>, i: nat) {
    && i < |keys|
    && IsNullish(Path(v, keys[..i]))
    && forall j | 0 <= j < i :: !IsNullish(Path(v, keys[..j]))
  }

  /**
   * The key loop succeeds exactly when no prefix of the key path leads to
   * `undefined` or `null`, and then yields the value at the end of the path.
   */
  lemma {:induction false} WalkKeysPath(v: Value, keys: seq<JsString>, parent: JsString)
    ensures WalkKeys(v, keys, parent).Ok? <==> forall i | 0 <= i < |keys| :: !IsNullish(Path(v, keys[..i]))
    ensures WalkKeys(v, keys, parent).Ok? ==> WalkKeys(v, keys, parent).value == Path(v, keys)
    decreases |keys|
  {
    if |keys| > 0 {
      assert keys[..0] == [];
      if !IsNullish(v) {
        var w := Property(v, keys[0]);
        WalkKeysPath(w, keys[1..], keys[0]);
        forall i | 0 <= i < |keys| - 1 ensures Path(v, keys[..i + 1]) == Path(w, keys[1..][..i]) {
          PathStep(v, keys, i);
        }
        if forall i | 0 <= i < |keys| :: !IsNullish(Path(v, keys[..i])) {
          forall i | 0 <= i < |keys| - 1 ensures !IsNullish(Path(w, keys[1..][..i])) {
            assert !IsNullish(Path(v, keys[..i + 1]));
          }
        }
        if forall i | 0 <= i < |keys| - 1 :: !IsNullish(Path(w, keys[1..][..i])) {
          forall i | 0 <= i < |keys| ensures !IsNullish(Path(v, keys[..i])) {
            if i > 0 {
              assert !IsNullish(Path(w, keys[1..][..i - 1]));
            }
          }
        }
      }
    }
  }

  /** When the key loop fails, it fails at the first such prefix, naming the key after it and the key before that. */
  lemma {:induction false} WalkKeysFailure(v: Value, keys: seq<JsString>, parent: JsString)
    requires WalkKeys(v, keys, parent).Err?
    ensures exists i: nat {:trigger FirstNullish(v, keys, i)} ::
      (FirstNullish(v, keys, i)
       && WalkKeys(v, keys, parent).error == UndefinedProperty(keys[i], if i == 0 then parent else keys[i - 1]))
    decreases |keys|
  {
    assert keys[..0] == [];
    if IsNullish(v) {
      assert FirstNullish(v, keys, 0) && WalkKeys(v, keys, parent).error == UndefinedProperty(keys[0], parent);
    } else {
      var w := Property(v, keys[0]);
      WalkKeysFailure(w, keys[1..], keys[0]);
      var i: nat :| FirstNullish(w, keys[1..], i)
        && WalkKeys(w, keys[1..], keys[0]).error == UndefinedProperty(keys[1..][i], if i == 0 then keys[0] else keys[1..][i - 1]);
      PathStep(v, keys, i);
      forall j | 0 <= j < i + 1 ensures !IsNullish(Path(v, keys[..j])) {
        if j > 0 {
          PathStep(v, keys, j - 1);
        }
      }
      var j: nat := i + 1;
      assert keys[1..][i] == keys[j] && (if i == 0 then keys[0] else keys[1..][i - 1]) == keys[j - 1];
      assert FirstNullish(v, keys, j)
        && WalkKeys(v, keys, parent).error == UndefinedProperty(keys[j], if j == 0 then parent else keys[j - 1]);
    }
  }

  /** The argument of a placeholder: by key path from `argv[cursor]`, by number, or the next one. */
  function Resolve(d: Directive, argv: seq<Value>, cursor: nat): Result<Value> {
    match d.arg
    case Named(keys) => WalkKeys(ArgAt(argv, cursor), keys, UNDEFINED)
    case Explicit(i) => Ok(ArgAt(argv, i))
    case Implicit => Ok(ArgAt(argv, cursor))
  }

  /** `cursor` moves on only for implicit placeholders. */
  function NextCursor(d: Directive, cursor: nat): nat {
    if d.arg.Implicit? then cursor + 1 else cursor
  }

  // ---------------------------------------------------------------------------
  // Converting the argument

  /** `Number.prototype.toString(b)` of an integer, or of NaN. */
  function NumberText(x: Option<int>, b: nat): JsString
    requires IsRadix(b)
  {
    if x.None? then NAN
    else if x.value < 0 then [MINUS] + RadixText(-x.value, b)
    else RadixText(x.value, b)
  }

  /** `(ph.precision ? s.substring(0, ph.precision) : s)`. */
  function Truncate(s: JsString, precision: Option<nat>): JsString {
    if precision.Some? then Take(s, precision.value) else s
  }

  /** A precision `toFixed` and `toExponential` refuse: they take 0 to 100 digits. */
  predicate OverHundred(precision: Option<nat>) {
    precision.Some? && precision.value > 100
  }

  /** A precision `toPrecision` refuses: it takes 1 to 100 digits. */
  predicate OutOfPrecisionRange(precision: Option<nat>) {
    precision.Some? && (precision.value < 1 || precision.value > 100)
  }

  /**
   * The `switch` on the conversion letter: the text `arg` stands for afterwards,
   * or the TypeError or RangeError the built-in it calls raises.
   */
  function Converted(d: Directive, v: Value, host: HostText): (r: Result<JsString>)
    ensures r.Err? ==> r.error.HostTypeError? || r.error.HostRangeError?
  {
    var c := d.conv;
    if c == BIN then Ok(NumberText(ParseInt(v), 2))
    else if c == CHAR then Ok([ToUint16(ParseInt(v))])
    else if c == DEC || c == INT then Ok(NumberText(ParseInt(v), 10))
    else if c == JSON then Ok(host(d, v))
    else if c == EXP then
      // `toExponential` writes a NaN or an infinity before it looks at the precision
      if OverHundred(d.precision) && FloatIsFinite(v) then Err(HostRangeError(TO_EXPONENTIAL)) else Ok(host(d, v))
    else if c == FIXED then
      // `toFixed` checks the precision first, whatever number it is called on
      if OverHundred(d.precision) then Err(HostRangeError(TO_FIXED)) else Ok(host(d, v))
    else if c == GENERAL then
      // `arg.toPrecision` is called on the argument itself, which only numbers have;
      // numbers here are finite, so the precision is checked
      if d.precision.Some? && !v.Num? then Err(HostTypeError(TO_PRECISION))
      else if OutOfPrecisionRange(d.precision) then Err(HostRangeError(TO_PRECISION))
      else Ok(host(d, v))
    else if c == OCT then Ok(RadixText(ToUint32(ParseInt(v)), 8))
    else if c == STR then Ok(Truncate(ToString(v), d.precision))
    else if c == BOOL then Ok(Truncate(ToString(Bool(Truthy(v))), d.precision))
    else if c == TYPE then Ok(Truncate(TypeName(v), d.precision))
    else if c == UNSIGNED then Ok(RadixText(ToUint32(ParseInt(v)), 10))
    else if c == PRIMITIVE then
      if IsNullish(v) then Err(HostTypeError(VALUE_OF))
      else if d.precision.Some? then
        // only strings have `substring`
        if v.Str? then Ok(Take(v.s, d.precision.value)) else Err(HostTypeError(SUBSTRING))
      else Ok(ToString(v))
    else if c == HEX then Ok(RadixText(ToUint32(ParseInt(v)), 16))
    else if c == HEX_UPPER then Ok(UpperAscii(RadixText(ToUint32(ParseInt(v)), 16)))
    else Ok(ToString(v))
  }

  /** `arg.toString().replace(re.sign, '')`. */
  function StripSign(t: JsString): JsString {
    if |t| > 0 && (t[0] == PLUS || t[0] == MINUS) then t[1..] else t
  }

  /** `s.charAt(i)`. */
  function CharAt(s: JsString, i: nat): JsString {
    if i < |s| then [s[i]] else []
  }

  /** `pad_character`: a space, `0`, or the character after the quote. */
  function PadChar(d: Directive): JsString {
    if d.pad.None? || |d.pad.value| == 0 then [SPACE]
    else if d.pad.value == [ZERO] then [ZERO]
    else CharAt(d.pad.value, 1)
  }

  /** `s.repeat(n)`. */
  function Repeat(s: JsString, n: nat): (r: JsString)
    ensures |r| == |s| * n
  {
    if n == 0 then [] else s + Repeat(s, n - 1)
  }

  /** `pad`: the pad character, as often as sign and argument fall short of the width. */
  function Pad(d: Directive, length: nat): JsString {
    var padLength: int := if d.width.Some? then d.width.value - length else 0;
    if d.width.Some? && padLength > 0 then Repeat(PadChar(d), padLength) else []
  }

  /** Sign, argument and padding put together as the width and the alignment say. */
  function Padded(d: Directive, sign: JsString, body: JsString): JsString {
    var pad := Pad(d, |sign + body|);
    if d.leftAlign then sign + body + pad
    else if PadChar(d) == [ZERO] then sign + pad + body
    else pad + sign + body
  }

  /** `arg >= 0` for an argument that passed the numeric check. */
  predicate IsPositive(v: Value) {
    ToNumber(v) == Number(false)
  }

  /** The numeric check: a numeric conversion refuses an argument that is no number and that `isNaN` holds for. */
  predicate Refuses(d: Directive, v: Value) {
    IsNumericArg(d.conv) && !v.Num? && ToNumber(v).NotANumber?
  }

  /**
   * The sign and the text after it: a `%d %i %e %f %g` of a negative argument, or
   * with the `+` flag, gets a sign of its own, and the text loses the one it had.
   */
  function Signed(d: Directive, positive: bool, text: JsString): (JsString, JsString) {
    if IsNumber(d.conv) && (!positive || d.plus) then ((if positive then [PLUS] else [MINUS]), StripSign(text))
    else ([], text)
  }

  /** What a placeholder adds to the output for the argument `v`. */
  function Piece(d: Directive, v: Value, host: HostText): (r: Result<JsString>)
    ensures r.Err? ==> r.error.ExpectingNumber? || r.error.HostTypeError? || r.error.HostRangeError?
  {
    if Refuses(d, v) then Err(ExpectingNumber(TypeName(v)))
    else
      var text :- Converted(d, v, host);
      if d.conv == JSON then Ok(text)
      else
        var signed := Signed(d, IsPositive(v), text);
        Ok(Padded(d, signed.0, signed.1))
  }

  // ---------------------------------------------------------------------------
  // The loop over the tree

  /** How one placeholder is written for its argument: the part of the loop that does not depend on the tree. */
  type Formatter = (Directive, Value) -> Result<JsString>

  function PieceFormatter(host: HostText): Formatter {
    (d: Directive, v: Value) => Piece(d, v, host)
  }

  /** The output from some node on, `cursor` being the index of the next implicit argument. */
  function RenderFrom(tree: seq<Node>, argv: seq<Value>, cursor: nat, format: Formatter): Result<JsString>
    decreases |tree|
  {
    if |tree| == 0 then Ok([])
    else match tree[0]
      case Literal(t) => PrependSeq(t, RenderFrom(tree[1..], argv, cursor, format))
      case Placeholder(d) =>
        var v :- Resolve(d, argv, cursor);
        var piece :- format(d, v);
        PrependSeq(piece, RenderFrom(tree[1..], argv, NextCursor(d, cursor), format))
  }

  /** `sprintf_format(parse_tree, argv)`; `argv[0]` is the format string itself, so implicit arguments start at 1. */
  function Render(tree: seq<Node>, argv: seq<Value>, host: HostText): Result<JsString> {
    RenderFrom(tree, argv, 1, PieceFormatter(host))
  }

  lemma RenderFromLiteral(tree: seq<Node>, argv: seq<Value>, cursor: nat, format: Formatter)
    requires |tree| > 0 && tree[0].Literal?
    ensures RenderFrom(tree, argv, cursor, format) == PrependSeq(tree[0].text, RenderFrom(tree[1..], argv, cursor, format))
  {
  }

  lemma RenderFromPlaceholder(tree: seq<Node>, argv: seq<Value>, cursor: nat, format: Formatter, v: Value, piece: JsString)
    requires |tree| > 0 && tree[0].Placeholder?
    requires Resolve(tree[0].d, argv, cursor) == Ok(v) && format(tree[0].d, v) == Ok(piece)
    ensures RenderFrom(tree, argv, cursor, format)
      == PrependSeq(piece, RenderFrom(tree[1..], argv, NextCursor(tree[0].d, cursor), format))
  {
  }

  lemma RenderFromError(tree: seq<Node>, argv: seq<Value>, cursor: nat, format: Formatter, e: Error)
    requires |tree| > 0 && tree[0].Placeholder?
    requires Resolve(tree[0].d, argv, cursor) == Err(e)
      || (Resolve(tree[0].d, argv, cursor).Ok? && format(tree[0].d, Resolve(tree[0].d, argv, cursor).value) == Err(e))
    ensures RenderFrom(tree, argv, cursor, format) == Err(e)
  {
  }

  /** The loop of `sprintf_format`. */
  method Format(tree: seq<Node>, argv: seq<Value>, host: HostText) returns (r: Result<JsString>)
    ensures r == Render(tree, argv, host)
  {
    var cursor: nat := 1;
    var output: JsString := [];
    PrependNil(Render(tree, argv, host));
    for i := 0 to |tree|
      invariant Render(tree, argv, host) == PrependSeq(output, RenderFrom(tree[i..], argv, cursor, PieceFormatter(host)))
    {
      assert tree[i..][0] == tree[i] && tree[i..][1..] == tree[i + 1..];
      var node := tree[i];
      if node.Literal? {
        RenderFromLiteral(tree[i..], argv, cursor, PieceFormatter(host));
        PrependTwice(output, node.text, RenderFrom(tree[i + 1..], argv, cursor, PieceFormatter(host)));
        output := output + node.text;
      } else {
        var d := node.d;
        var arg: Value;
        var next := cursor;
        match d.arg {
          case Named(keys) =>
            var found := Lookup(ArgAt(argv, cursor), keys);
            if found.Err? {
              RenderFromError(tree[i..], argv, cursor, PieceFormatter(host), found.error);
              return Err(found.error);
            }
            arg := found.value;
          case Explicit(n) =>
            arg := ArgAt(argv, n);
          case Implicit =>
            arg := ArgAt(argv, cursor);
            next := cursor + 1;
        }
        assert Resolve(d, argv, cursor) == Ok(arg);
        var piece := Piece(d, arg, host);
        assert PieceFormatter(host)(d, arg) == piece;
        if piece.Err? {
          RenderFromError(tree[i..], argv, cursor, PieceFormatter(host), piece.error);
          return Err(piece.error);
        }
        RenderFromPlaceholder(tree[i..], argv, cursor, PieceFormatter(host), arg, piece.value);
        PrependTwice(output, piece.value, RenderFrom(tree[i + 1..], argv, next, PieceFormatter(host)));
        output := output + piece.value;
        cursor := next;
      }
    }
    assert tree[|tree|..] == [];
    assert output + [] == output;
    return Ok(output);
  }

  // ---------------------------------------------------------------------------
  // Which argument each placeholder reads

  /** The number of implicit placeholders in `t`. */
  function Implicits(t: seq<Node>): nat {
    if |t| == 0 then 0 else (if t[0].Placeholder? && t[0].d.arg.Implicit? then 1 else 0) + Implicits(t[1..])
  }

  /** What one node adds to the output when the next implicit argument is `argv[cursor]`. */
  function NodeText(n: Node, argv: seq<Value>, cursor: nat, format: Formatter): Result<JsString> {
    match n
    case Literal(t) => Ok(t)
    case Placeholder(d) =>
      var v :- Resolve(d, argv, cursor);
      format(d, v)
  }

  /** The texts put together in order; the first failure is the result. */
  function Concat(rs: seq<Result<JsString>>): Result<JsString> {
    if |rs| == 0 then Ok([])
    else match rs[0]
      case Err(e) => Err(e)
      case Ok(t) => PrependSeq(t, Concat(rs[1..]))
  }

  /** Node `i` on its own, reading the implicit argument that follows those the nodes before it read. */
  function Slots(tree: seq<Node>, argv: seq<Value>, cursor: nat, format: Formatter): (r: seq<Result<JsString>>)
    ensures |r| == |tree|
  {
    seq(|tree|, i requires 0 <= i < |tree| => NodeText(tree[i], argv, cursor + Implicits(tree[..i]), format))
  }

  lemma ImplicitsStep(tree: seq<Node>, i: nat)
    requires 0 <= i < |tree|
    ensures Implicits(tree[..i + 1]) == Implicits(tree[..1]) + Implicits(tree[1..][..i])
  {
    assert tree[..i + 1][1..] == tree[1..][..i];
    assert tree[..1][1..] == [];
  }

  /**
   * The loop's cursor bookkeeping: the output is the nodes' texts in order, the
   * `k`-th implicit placeholder reading `argv[cursor + k]`.
   */
  lemma {:induction false} RenderSlots(tree: seq<Node>, argv: seq<Value>, cursor: nat, format: Formatter)
    ensures RenderFrom(tree, argv, cursor, format) == Concat(Slots(tree, argv, cursor, format))
    decreases |tree|
  {
    if |tree| > 0 {
      var next := if tree[0].Placeholder? then NextCursor(tree[0].d, cursor) else cursor;
      assert next == cursor + Implicits(tree[..1]) by {
        assert tree[..1][1..] == [];
      }
      RenderSlots(tree[1..], argv, next, format);
      var whole := Slots(tree, argv, cursor, format);
      forall i | 0 <= i < |tree| - 1 ensures whole[1..][i] == Slots(tree[1..], argv, next, format)[i] {
        ImplicitsStep(tree, i);
      }
      assert whole[1..] == Slots(tree[1..], argv, next, format);
      assert tree[..0] == [];
    }
  }

  /** In a format the parser accepts, every key path starts at the first argument after the format. */
  lemma NamedReadsFirst(fmt: JsString, t: seq<Node>, i: nat)
    requires ParseTree(fmt) == Ok(t)
    requires i < |t| && t[i].Placeholder? && t[i].d.arg.Named?
    ensures Implicits(t[..i]) == 0
  {
    ParseTreeTokens(fmt);
    assert HasNamed(t);
    ImplicitsPositional(t[..i]);
    PrefixPositional(t, i);
  }

  lemma PrefixPositional(t: seq<Node>, i: nat)
    requires i <= |t|
    ensures HasPositional(t[..i]) ==> HasPositional(t)
  {
    if HasPositional(t[..i]) {
      var j :| 0 <= j < i && t[..i][j].Placeholder? && !t[..i][j].d.arg.Named?;
      assert t[j] == t[..i][j];
    }
  }

  lemma {:induction false} ImplicitsPositional(t: seq<Node>)
    ensures Implicits(t) > 0 ==> HasPositional(t)
  {
    if |t| > 0 {
      if t[0].Placeholder? && t[0].d.arg.Implicit? {
        assert t[0].Placeholder? && !t[0].d.arg.Named?;
      } else {
        ImplicitsPositional(t[1..]);
        if HasPositional(t[1..]) {
          var j :| 0 <= j < |t| - 1 && t[1..][j].Placeholder? && !t[1..][j].d.arg.Named?;
          assert t[j + 1] == t[1..][j];
        }
      }
    }
  }

  /** No placeholder the loop meets from `cursor` 1 on reads `argv[0]`, the format string. */
  lemma {:induction false} RenderIgnoresFirst(tree: seq<Node>, a: Value, b: Value, rest: seq<Value>, cursor: nat, format: Formatter)
    requires AllParsed(tree) && cursor >= 1
    ensures RenderFrom(tree, [a] + rest, cursor, format) == RenderFrom(tree, [b] + rest, cursor, format)
    decreases |tree|
  {
    if |tree| > 0 {
      assert AllParsed(tree[1..]) by {
        forall i | 0 <= i < |tree| - 1 ensures tree[1..][i] == tree[i + 1] {
        }
      }
      if tree[0].Placeholder? {
        var d := tree[0].d;
        assert ParsedDirective(d);
        assert Resolve(d, [a] + rest, cursor) == Resolve(d, [b] + rest, cursor) by {
          if d.arg.Explicit? {
            assert ArgAt([a] + rest, d.arg.index) == ArgAt([b] + rest, d.arg.index);
          } else {
            assert ArgAt([a] + rest, cursor) == ArgAt([b] + rest, cursor);
          }
        }
        RenderIgnoresFirst(tree[1..], a, b, rest, NextCursor(d, cursor), format);
      } else {
        RenderIgnoresFirst(tree[1..], a, b, rest, cursor, format);
      }
    }
  }

  // ---------------------------------------------------------------------------
  // What a placeholder writes

  /**
   * A placeholder fails exactly when its argument is no number for a numeric
   * conversion, when the conversion fails (see `ConvertedFailure`).
   */
  lemma PieceFailure(d: Directive, v: Value, host: HostText)
    ensures Piece(d, v, host).Err? <==> Refuses(d, v) || ConversionFails(d, v)
    ensures Piece(d, v, host).Err? && Piece(d, v, host).error.ExpectingNumber? <==> Refuses(d, v)
    ensures Refuses(d, v) ==> Piece(d, v, host) == Err(ExpectingNumber(TypeName(v)))
  {
    if !Refuses(d, v) {
      ConvertedFailure(d, v, host);
    }
  }

  /**
   * When the conversion fails: `%e` with a precision above 100 on an argument
   * `parseFloat` reads as a finite number, `%f` with a precision above 100,
   * `%g` with a precision on something that is no number or outside 1 to 100,
   * and `%v` on `undefined`, `null`, or, with a precision, on anything but a string.
   */
  predicate ConversionFails(d: Directive, v: Value) {
    || (d.conv == EXP && OverHundred(d.precision) && FloatIsFinite(v))
    || (d.conv == FIXED && OverHundred(d.precision))
    || (d.conv == GENERAL && d.precision.Some? && (!v.Num? || OutOfPrecisionRange(d.precision)))
    || (d.conv == PRIMITIVE && (IsNullish(v) || (d.precision.Some? && !v.Str?)))
  }

  lemma ConvertedFailure(d: Directive, v: Value, host: HostText)
    ensures Converted(d, v, host).Err? <==> ConversionFails(d, v)
  {
  }

  /** Which built-in raises which error: a RangeError from the precision checks, a TypeError from a missing method. */
  lemma ConvertedErrors(d: Directive, v: Value, host: HostText)
    ensures d.conv == EXP && OverHundred(d.precision) && FloatIsFinite(v) ==>
      Converted(d, v, host) == Err(HostRangeError(TO_EXPONENTIAL))
    ensures d.conv == FIXED && OverHundred(d.precision) ==> Converted(d, v, host) == Err(HostRangeError(TO_FIXED))
    ensures d.conv == GENERAL && d.precision.Some? && !v.Num? ==> Converted(d, v, host) == Err(HostTypeError(TO_PRECISION))
    ensures d.conv == GENERAL && v.Num? && OutOfPrecisionRange(d.precision) ==>
      Converted(d, v, host) == Err(HostRangeError(TO_PRECISION))
    ensures Converted(d, v, host).Err? && Converted(d, v, host).error.HostRangeError? <==>
      || (d.conv == EXP && OverHundred(d.precision) && FloatIsFinite(v))
      || (d.conv == FIXED && OverHundred(d.precision))
      || (d.conv == GENERAL && v.Num? && OutOfPrecisionRange(d.precision))
  {
  }

  /** `%.101e` of a number, and of a string holding one, is a RangeError; of `null`, `true` or an object it is not. */
  lemma ExponentRange(d: Directive, v: Value, host: HostText, n: int)
    requires d.conv == EXP && OverHundred(d.precision)
    requires -0x20_0000_0000_0000 < n < 0x20_0000_0000_0000
    ensures Converted(d, Num(n), host) == Err(HostRangeError(TO_EXPONENTIAL))
    ensures Converted(d, Str(IntText(n)), host) == Err(HostRangeError(TO_EXPONENTIAL))
    ensures v.Undef? || v.Null? || v.Bool? || v.Obj? ==> Converted(d, v, host) == Ok(host(d, v))
  {
    FloatOfIntText(n);
    if v.Undef? || v.Null? || v.Bool? || v.Obj? {
      FloatOfNonNumbers(v);
    }
  }

  /** The numeric check refuses `undefined`, objects, and strings and arrays whose text is no number; never `null` or booleans. */
  lemma RefusedArguments(d: Directive, v: Value)
    requires IsNumericArg(d.conv)
    ensures v.Undef? || v.Obj? ==> Refuses(d, v)
    ensures v.Null? || v.Bool? || v.Num? ==> !Refuses(d, v)
    ensures v.Str? ==> (Refuses(d, v) <==> StringToNumber(v.s).NotANumber?)
  {
  }

  /**
   * A numeric conversion takes a string holding an integer, with white space
   * around it or not, and signs it as that integer: `%d` of `" -5 "` is no error.
   */
  lemma IntTextArgument(d: Directive, w1: JsString, n: int, w2: JsString)
    requires AllWhiteSpace(w1) && AllWhiteSpace(w2)
    ensures !Refuses(d, Str(w1 + IntText(n) + w2))
    ensures IsPositive(Str(w1 + IntText(n) + w2)) <==> n >= 0
  {
    StringToNumberOfIntText(w1, n, w2);
  }

  /** Once the text is converted, the placeholder writes it with its sign, padded; `%j` as it is. */
  lemma PieceOf(d: Directive, v: Value, host: HostText, text: JsString)
    requires !Refuses(d, v) && Converted(d, v, host) == Ok(text)
    ensures d.conv == JSON ==> Piece(d, v, host) == Ok(text)
    ensures d.conv != JSON ==>
      Piece(d, v, host) == Ok(Padded(d, Signed(d, IsPositive(v), text).0, Signed(d, IsPositive(v), text).1))
  {
  }

  /** `%j` writes the host's JSON text as it is: no sign, no padding, whatever the width. */
  lemma JsonPiece(d: Directive, v: Value, host: HostText)
    requires d.conv == JSON
    ensures Piece(d, v, host) == Ok(host(d, v))
  {
    assert !Refuses(d, v);
    assert Converted(d, v, host) == Ok(host(d, v));
    PieceOf(d, v, host, host(d, v));
  }

  /** The sign rule: a `-` for a negative argument, a `+` for the `+` flag, the text's own sign dropped. */
  lemma SignRule(d: Directive, positive: bool, text: JsString)
    requires IsNumber(d.conv)
    ensures !positive ==> Signed(d, positive, text) == ([MINUS], StripSign(text))
    ensures positive && d.plus ==> Signed(d, positive, text) == ([PLUS], StripSign(text))
    ensures positive && !d.plus ==> Signed(d, positive, text) == ([], text)
    ensures StripSign(text) == text || (|text| > 0 && (text[0] == PLUS || text[0] == MINUS) && StripSign(text) == text[1..])
  {
  }

  /** Conversions other than `%d %i %e %f %g` never get a sign. */
  lemma NoSign(d: Directive, positive: bool, text: JsString)
    requires !IsNumber(d.conv)
    ensures Signed(d, positive, text) == ([], text)
  {
  }

  function Max(a: int, b: int): int {
    if a < b then b else a
  }

  /** Every character of `s` is `c`. */
  predicate AllAre(s: JsString, c: CodeUnit) {
    forall i | 0 <= i < |s| :: s[i] == c
  }

  lemma {:induction false} RepeatAll(c: CodeUnit, n: nat)
    ensures AllAre(Repeat([c], n), c)
  {
    if n > 0 {
      RepeatAll(c, n - 1);
      assert Repeat([c], n) == [c] + Repeat([c], n - 1);
    }
  }

  /** A parsed placeholder pads with exactly one character: a space, `0`, or the one after the quote. */
  lemma PadCharOfParsed(d: Directive)
    requires ParsedDirective(d)
    ensures |PadChar(d)| == 1
    ensures d.pad.None? ==> PadChar(d) == [SPACE]
    ensures d.pad.Some? && d.pad.value != [ZERO] ==> PadChar(d) == [d.pad.value[1]]
  {
  }

  /**
   * The layout: the text is as wide as the width asks and no narrower than sign and
   * argument; the padding, all of the pad character, goes after them when the
   * `-` flag is set, between sign and argument when padding with `0`, in front otherwise.
   */
  lemma PaddedLayout(d: Directive, sign: JsString, body: JsString)
    requires |PadChar(d)| == 1
    ensures var r := Padded(d, sign, body);
      var n := |r| - |sign| - |body|;
      && |r| == (if d.width.Some? then Max(d.width.value, |sign| + |body|) else |sign| + |body|)
      && n >= 0
      && (d.leftAlign ==> r[..|sign| + |body|] == sign + body && AllAre(r[|sign| + |body|..], PadChar(d)[0]))
      && (!d.leftAlign && PadChar(d) == [ZERO] ==> r[..|sign|] == sign && r[|r| - |body|..] == body && AllAre(r[|sign|..|sign| + n], ZERO))
      && (!d.leftAlign && PadChar(d) != [ZERO] ==> r[n..] == sign + body && AllAre(r[..n], PadChar(d)[0]))
  {
    var pad := Pad(d, |sign + body|);
    PadAll(d, |sign + body|);
    var r := Padded(d, sign, body);
    if d.leftAlign {
      Split3(sign, body, pad);
    } else if PadChar(d) == [ZERO] {
      Split3(sign, pad, body);
    } else {
      Split3(pad, sign, body);
    }
  }

  /** The padding is all of the pad character, and as long as the text falls short of the width. */
  lemma PadAll(d: Directive, length: nat)
    requires |PadChar(d)| == 1
    ensures AllAre(Pad(d, length), PadChar(d)[0])
    ensures |Pad(d, length)| == (if d.width.Some? then Max(d.width.value, length) else length) - length
  {
    var pc := PadChar(d);
    assert pc == [pc[0]];
    if d.width.Some? && d.width.value - length > 0 {
      RepeatAll(pc[0], d.width.value - length);
    }
  }

  /** The three parts of a concatenation, cut back out of it. */
  lemma Split3(x: JsString, y: JsString, z: JsString)
    ensures (x + y + z)[..|x|] == x
    ensures (x + y + z)[..|x| + |y|] == x + y
    ensures (x + y + z)[|x|..|x| + |y|] == y
    ensures (x + y + z)[|x| + |y|..] == z
    ensures (x + y + z)[|x|..] == y + z
  {
  }

  /** Without a width (or with one it does not reach), sign and argument are written as they are. */
  lemma UnpaddedLayout(d: Directive, sign: JsString, body: JsString)
    requires d.width.None? || d.width.value <= |sign| + |body|
    ensures Padded(d, sign, body) == sign + body
  {
    assert sign + body + [] == sign + body;
    assert [] + sign + body == sign + body;
    assert sign + [] + body == sign + body;
  }

  /** The sign and digits of an integer. */
  function SignedDigits(n: int, plus: bool): (JsString, JsString) {
    ((if n < 0 then [MINUS] else if plus then [PLUS] else []), RadixText(if n < 0 then -n else n, 10))
  }

  /** `%d %i` of a number convert it to its own text. */
  lemma ConvertedDecimal(d: Directive, n: int, host: HostText)
    requires d.conv == DEC || d.conv == INT
    ensures Converted(d, Num(n), host) == Ok(IntText(n))
  {
    ParseIntOfNumber(n);
  }

  lemma SignedIntText(d: Directive, n: int)
    requires d.conv == DEC || d.conv == INT
    ensures Signed(d, n >= 0, IntText(n)) == SignedDigits(n, d.plus)
  {
    var m: nat := if n < 0 then -n else n;
    var digits := RadixText(m, 10);
    RadixTextDigits(m, 10);
    assert IsRadixDigit(digits[0], 10);
    if n < 0 {
      assert StripSign([MINUS] + digits) == digits;
    }
  }

  /** `%d` and `%i` of a number: its sign (or the `+` flag's) and its decimal digits, padded. */
  lemma DecimalPiece(d: Directive, n: int, host: HostText)
    requires d.conv == DEC || d.conv == INT
    ensures Piece(d, Num(n), host) == Ok(Padded(d, SignedDigits(n, d.plus).0, SignedDigits(n, d.plus).1))
  {
    ConvertedDecimal(d, n, host);
    assert !Refuses(d, Num(n));
    assert IsPositive(Num(n)) == (n >= 0);
    PieceOf(d, Num(n), host, IntText(n));
    SignedIntText(d, n);
  }

  /** parseInt reads back the integer whose sign and digits these are. */
  lemma SignedDigitsRead(n: int, plus: bool)
    ensures ParseIntText(SignedDigits(n, plus).0 + SignedDigits(n, plus).1) == Some(n)
  {
    var m: nat := if n < 0 then -n else n;
    DecimalTextDigits(m);
    RadixTextValue(m, 10);
    ParseIntOfSignedDigits(SignedDigits(n, plus).0, RadixText(m, 10));
  }

  /** Without a width, `%d` writes what parseInt reads back as the argument. */
  lemma DecimalRoundTrip(d: Directive, n: int, host: HostText)
    requires (d.conv == DEC || d.conv == INT) && d.width.None?
    ensures Piece(d, Num(n), host).Ok?
    ensures ParseIntText(Piece(d, Num(n), host).value) == Some(n)
  {
    DecimalPiece(d, n, host);
    var signed := SignedDigits(n, d.plus);
    UnpaddedLayout(d, signed.0, signed.1);
    SignedDigitsRead(n, d.plus);
    assert Piece(d, Num(n), host).value == signed.0 + signed.1;
  }

  /** `%s` writes `String(v)`, cut to the precision, padded; the text is a prefix of `String(v)`. */
  lemma StringPiece(d: Directive, v: Value, host: HostText)
    requires d.conv == STR
    ensures Piece(d, v, host) == Ok(Padded(d, [], Truncate(ToString(v), d.precision)))
    ensures Truncate(ToString(v), d.precision) <= ToString(v)
    ensures |Truncate(ToString(v), d.precision)| ==
      if d.precision.Some? && d.precision.value < |ToString(v)| then d.precision.value else |ToString(v)|
  {
    var text := Truncate(ToString(v), d.precision);
    assert Converted(d, v, host) == Ok(text);
    PieceOf(d, v, host, text);
  }

  /** `%o %u %x` convert ToUint32 of parseInt's result (NaN counting as 0) to base 8, 10 or 16. */
  lemma ConvertedUnsigned(d: Directive, v: Value, host: HostText, b: nat)
    requires (d.conv == OCT && b == 8) || (d.conv == UNSIGNED && b == 10) || (d.conv == HEX && b == 16)
    ensures Converted(d, v, host) == Ok(RadixText(ToUint32(ParseInt(v)), b))
  {
  }

  /**
   * `%o %u %x` write ToUint32 of parseInt's result in base 8, 10 or 16,
   * without superfluous leading zeros, in digits that read back as that number;
   * for a number argument that is the number modulo 2^32.
   */
  lemma UnsignedPiece(d: Directive, v: Value, host: HostText, b: nat)
    requires (d.conv == OCT && b == 8) || (d.conv == UNSIGNED && b == 10) || (d.conv == HEX && b == 16)
    requires !Refuses(d, v)
    ensures Piece(d, v, host) == Ok(Padded(d, [], RadixText(ToUint32(ParseInt(v)), b)))
    ensures RadixValue(RadixText(ToUint32(ParseInt(v)), b), b) == ToUint32(ParseInt(v))
    ensures RadixText(ToUint32(ParseInt(v)), b)[0] == ZERO <==> ToUint32(ParseInt(v)) == 0
    ensures v.Num? ==> ToUint32(ParseInt(v)) == v.n % 0x1_0000_0000
  {
    var x := ToUint32(ParseInt(v));
    ConvertedUnsigned(d, v, host, b);
    PieceOf(d, v, host, RadixText(x, b));
    NoSign(d, IsPositive(v), RadixText(x, b));
    RadixTextValue(x, b);
    RadixTextNoLeadingZero(x, b);
    if v.Num? {
      ParseIntOfNumber(v.n);
    }
  }

  /** `%X` is `%x` in upper case: digits and the letters A to F. */
  lemma UpperHexPiece(d: Directive, v: Value, host: HostText)
    requires d.conv == HEX_UPPER
    ensures Converted(d, v, host) == Ok(UpperAscii(RadixText(ToUint32(ParseInt(v)), 16)))
    ensures forall i | 0 <= i < |Converted(d, v, host).value| ::
      IsDigit(Converted(d, v, host).value[i]) || 0x41 <= Converted(d, v, host).value[i] <= 0x46
  {
    var lower := RadixText(ToUint32(ParseInt(v)), 16);
    RadixTextDigits(ToUint32(ParseInt(v)), 16);
    assert Converted(d, v, host) == Ok(UpperAscii(lower));
    forall i | 0 <= i < |lower| ensures IsDigit(UpperAscii(lower)[i]) || 0x41 <= UpperAscii(lower)[i] <= 0x46 {
      assert IsRadixDigit(lower[i], 16);
    }
  }

  /** `%b` writes parseInt's result in sign and binary digits (not as 32 bits), `NaN` when there is none. */
  lemma BinaryPiece(d: Directive, n: int, host: HostText)
    requires d.conv == BIN
    ensures Converted(d, Num(n), host) == Ok((if n < 0 then [MINUS] else []) + RadixText(if n < 0 then -n else n, 2))
    ensures RadixValue(RadixText(if n < 0 then -n else n, 2), 2) == if n < 0 then -n else n
  {
    ParseIntOfNumber(n);
    RadixTextValue(if n < 0 then -n else n, 2);
    if n >= 0 {
      assert [] + RadixText(n, 2) == RadixText(n, 2);
    }
  }

  /** `%c` of a number writes the one code unit the number is modulo 2^16. */
  lemma CharPiece(d: Directive, n: int, host: HostText)
    requires d.conv == CHAR
    ensures Converted(d, Num(n), host) == Ok([(n % 0x1_0000) as CodeUnit])
  {
    ParseIntOfNumber(n);
  }

  /** `%t` and `%T` never fail: they write `true` or `false`, or the type name, cut to the precision. */
  lemma BoolAndTypePieces(d: Directive, v: Value, host: HostText)
    requires d.conv == BOOL || d.conv == TYPE
    ensures Piece(d, v, host) == Ok(Padded(d, [], Truncate(if d.conv == BOOL then ToString(Bool(Truthy(v))) else TypeName(v), d.precision)))
  {
    var text := Truncate(if d.conv == BOOL then ToString(Bool(Truthy(v))) else TypeName(v), d.precision);
    assert Converted(d, v, host) == Ok(text);
    PieceOf(d, v, host, text);
  }
}
