/**
 * The entry points of the format engine of virya_io.js: `sprintf(fmt, ...args)`
 * parses the format (through a cache of parse trees) and renders the tree with
 * the arguments, the format itself standing in `argv[0]`; `vsprintf(fmt, argv)`
 * spreads an argument array. The two run-time messages are themselves built
 * with `sprintf`, which leaves their format strings in the cache as well.
 */
module Sprintf {
  import opened JsText
  import opened Outcomes
  import opened Values
  import opened FormatParser
  import opened FormatRender

  /** The arguments after the format in `[fmt].concat(argv || [])`. */
  function SpreadArgs(argv: Value): seq<Value> {
    if !Truthy(argv) then [] else if argv.Arr? then argv.elems else [argv]
  }

  /** `sprintf(fmt, ...args)`: the output, or the error it throws. */
  function Output(fmt: JsString, args: seq<Value>, host: HostText): Result<JsString> {
    var tree :- ParseTree(fmt);
    Render(tree, [Str(fmt)] + args, host)
  }

  /** `vsprintf(fmt, argv)`. */
  function VOutput(fmt: JsString, argv: Value, host: HostText): Result<JsString> {
    Output(fmt, SpreadArgs(argv), host)
  }

  /**
   * `vsprintf` passes the elements of an array as the arguments, nothing for a
   * missing or falsy `argv`, and any other value as the one argument.
   */
  lemma {:induction false} VOutputArgs(fmt: JsString, argv: Value, host: HostText)
    ensures argv.Arr? ==> VOutput(fmt, argv, host) == Output(fmt, argv.elems, host)
    ensures !Truthy(argv) ==> VOutput(fmt, argv, host) == Output(fmt, [], host)
    ensures Truthy(argv) && !argv.Arr? ==> VOutput(fmt, argv, host) == Output(fmt, [argv], host)
  {
  }

  // ---------------------------------------------------------------------------
  // What the output is

  /** The format string in `argv[0]` is never read as an argument: any value there renders alike. */
  lemma {:induction false} OutputIgnoresFormat(fmt: JsString, args: seq<Value>, host: HostText, v: Value)
    requires ParseTree(fmt).Ok?
    ensures Output(fmt, args, host) == Render(ParseTree(fmt).value, [v] + args, host)
  {
    ParseTreeDirectives(fmt, ParseTree(fmt).value);
    RenderIgnoresFirst(ParseTree(fmt).value, Str(fmt), v, args, 1, PieceFormatter(host));
  }

  /** A format without `%` is its own output, whatever the arguments. */
  lemma {:induction false} OutputPlainText(fmt: JsString, args: seq<Value>, host: HostText)
    requires PERCENT !in fmt
    ensures Output(fmt, args, host) == Ok(fmt)
  {
    var argv := [Str(fmt)] + args;
    if |fmt| > 0 {
      PlainTextParse(fmt);
      var tree := [Literal(fmt)];
      RenderFromLiteral(tree, argv, 1, PieceFormatter(host));
      assert tree[1..] == [];
      assert fmt + [] == fmt;
    }
  }

  /** The errors the parse loop throws. */
  predicate IsParseError(e: Error) {
    e.UnexpectedPlaceholder? || e.BadNamedKey? || e.MixedPlaceholders?
  }

  /** The errors the render loop throws, itself or through the JavaScript engine. */
  predicate IsRenderError(e: Error) {
    e.UndefinedProperty? || e.ExpectingNumber? || e.HostTypeError? || e.HostRangeError?
  }

  lemma {:induction false} ParseFromErrors(s: JsString, flags: bv2)
    ensures ParseFrom(s, flags).Err? ==> IsParseError(ParseFrom(s, flags).error)
    decreases |s|
  {
    if |s| > 0 && ParseStep(s).Ok? {
      var step := ParseStep(s).value;
      if flags | FlagBit(step.0) != 3 {
        ParseFromErrors(s[step.1..], flags | FlagBit(step.0));
      }
    }
  }

  lemma {:induction false} RenderFromErrors(tree: seq<Node>, argv: seq<Value>, cursor: nat, host: HostText)
    ensures RenderFrom(tree, argv, cursor, PieceFormatter(host)).Err? ==>
      IsRenderError(RenderFrom(tree, argv, cursor, PieceFormatter(host)).error)
    decreases |tree|
  {
    if |tree| > 0 {
      if tree[0].Placeholder? {
        var d := tree[0].d;
        var v := Resolve(d, argv, cursor);
        if v.Ok? {
          assert PieceFormatter(host)(d, v.value) == Piece(d, v.value, host);
        }
        RenderFromErrors(tree[1..], argv, NextCursor(d, cursor), host);
      } else {
        RenderFromErrors(tree[1..], argv, cursor, host);
      }
    }
  }

  /**
   * An error comes from the parse loop exactly when it is one of the parse
   * errors: syntax errors, or the plain `Error` for mixing named and positional
   * placeholders; the render loop throws the other kinds.
   */
  lemma {:induction false} OutputErrors(fmt: JsString, args: seq<Value>, host: HostText)
    ensures ParseTree(fmt).Err? ==> Output(fmt, args, host) == Err(ParseTree(fmt).error)
    ensures Output(fmt, args, host).Err? ==>
      (ParseTree(fmt).Err? <==> IsParseError(Output(fmt, args, host).error))
    ensures Output(fmt, args, host).Err? && IsParseError(Output(fmt, args, host).error) ==>
      (ClassOf(Output(fmt, args, host).error) == SyntaxErrorClass <==> !Output(fmt, args, host).error.MixedPlaceholders?)
  {
    ParseFromErrors(fmt, 0);
    if ParseTree(fmt).Ok? {
      RenderFromErrors(ParseTree(fmt).value, [Str(fmt)] + args, 1, host);
    }
  }

  // ---------------------------------------------------------------------------
  // The format strings of the two run-time messages

  /** The record of a bare `%` and conversion letter: next argument, no flags, no width, no precision. */
  function Bare(c: CodeUnit): Directive {
    Directive([PERCENT, c], Implicit, false, None, false, None, None, c)
  }

  /** The text run of `%`-free text followed by a `%` or nothing is all of that text. */
  lemma {:induction false} TextRunOf(a: JsString, t: JsString)
    requires PERCENT !in a
    requires |t| == 0 || t[0] == PERCENT
    ensures TextRun(a + t) == |a|
  {
    if |a| > 0 {
      assert (a + t)[1..] == a[1..] + t;
      TextRunOf(a[1..], t);
    } else {
      assert a + t == t;
    }
  }

  /** Text without `%` up to a `%` or the end is one literal, whatever the flags. */
  lemma {:induction false} ParseLiteral(a: JsString, t: JsString, flags: bv2)
    requires |a| > 0 && PERCENT !in a
    requires |t| == 0 || t[0] == PERCENT
    requires flags != 3
    ensures ParseFrom(a + t, flags) == PrependSeq([Literal(a)], ParseFrom(t, flags))
  {
    var s := a + t;
    TextRunOf(a, t);
    assert s[..|a|] == a && s[|a|..] == t;
    assert ParseStep(s) == Ok((Literal(a), |a|));
    assert flags | FlagBit(Literal(a)) == flags;
    ParseFromCons(s, flags, Literal(a), |a|);
  }

  /** `%` and a conversion letter is a bare positional placeholder. */
  lemma {:induction false} ParseBare(c: CodeUnit, t: JsString, flags: bv2)
    requires IsConv(c) && (flags == 0 || flags == 2)
    ensures ParseFrom([PERCENT, c] + t, flags) == PrependSeq([Placeholder(Bare(c))], ParseFrom(t, 2))
  {
    var s := [PERCENT, c] + t;
    var m := RawMatch(None, None, false, None, false, None, None, c);
    assert MatchText(m) == [PERCENT, c];
    MatchPlaceholderComplete(m, t);
    assert s[..2] == [PERCENT, c] && s[2..] == t;
    StepPlaceholder(s);
    assert ParseStep(s) == Ok((Placeholder(Bare(c)), 2));
    assert flags | FlagBit(Placeholder(Bare(c))) == 2;
    ParseFromCons(s, flags, Placeholder(Bare(c)), 2);
  }

  /** A literal, told by where it ends in the text. */
  lemma {:induction false} LiteralAt(s: JsString, n: nat, flags: bv2)
    requires 0 < n <= |s| && PERCENT !in s[..n] && (n == |s| || s[n] == PERCENT)
    requires flags != 3
    ensures ParseFrom(s, flags) == PrependSeq([Literal(s[..n])], ParseFrom(s[n..], flags))
  {
    TakeDrop(s, n);
    ParseLiteral(s[..n], s[n..], flags);
  }

  /** Text without `%` to the end is one literal. */
  lemma {:induction false} ParseLastLiteral(t: JsString, flags: bv2)
    requires |t| > 0 && PERCENT !in t && flags != 3
    ensures ParseFrom(t, flags) == Ok([Literal(t)])
  {
    assert t[..|t|] == t;
    LiteralAt(t, |t|, flags);
    assert ParseFrom(t[|t|..], flags) == Ok([]);
    assert [Literal(t)] + [] == [Literal(t)];
  }

  /** Text, then `%` and a conversion: a literal and a bare placeholder, then whatever follows. */
  lemma {:induction false} ParseTextBare(h: JsString, c: CodeUnit, t: JsString, flags: bv2)
    requires |h| > 0 && PERCENT !in h && IsConv(c) && (flags == 0 || flags == 2)
    ensures ParseFrom(h + ([PERCENT, c] + t), flags)
      == PrependSeq([Literal(h)], PrependSeq([Placeholder(Bare(c))], ParseFrom(t, 2)))
  {
    ParseLiteral(h, [PERCENT, c] + t, flags);
    ParseBare(c, t, flags);
  }

  /** Two nodes put in front of a successful parse. */
  lemma {:induction false} PrependTwo(a: Node, b: Node, r: Result<seq<Node>>, rest: seq<Node>)
    requires r == Ok(rest)
    ensures PrependSeq([a], PrependSeq([b], r)) == Ok([a, b] + rest)
  {
    assert [a] + ([b] + rest) == [a, b] + rest;
  }

  /** Text, `%` and a conversion, text, after a positional placeholder: three nodes. */
  lemma {:induction false} ParseTextBareText(m: JsString, c: CodeUnit, t: JsString)
    requires |m| > 0 && PERCENT !in m && |t| > 0 && PERCENT !in t && IsConv(c)
    ensures ParseFrom(m + ([PERCENT, c] + t), 2) == Ok([Literal(m), Placeholder(Bare(c)), Literal(t)])
  {
    ParseTextBare(m, c, t, 2);
    ParseLastLiteral(t, 2);
    PrependTwo(Literal(m), Placeholder(Bare(c)), ParseFrom(t, 2), [Literal(t)]);
    assert [Literal(m), Placeholder(Bare(c))] + [Literal(t)] == [Literal(m), Placeholder(Bare(c)), Literal(t)];
  }

  /** Text, `%` and a conversion, text, `%` and a conversion, text: five nodes. */
  lemma {:induction false} ParseTwoBare(h: JsString, c: CodeUnit, m: JsString, c2: CodeUnit, t: JsString)
    requires |h| > 0 && PERCENT !in h && |m| > 0 && PERCENT !in m && |t| > 0 && PERCENT !in t
    requires IsConv(c) && IsConv(c2)
    ensures ParseTree(h + ([PERCENT, c] + (m + ([PERCENT, c2] + t))))
      == Ok([Literal(h), Placeholder(Bare(c))] + ([Literal(m), Placeholder(Bare(c2))] + [Literal(t)]))
  {
    var s2 := m + ([PERCENT, c2] + t);
    ParseTextBare(h, c, s2, 0);
    ParseTextBareText(m, c2, t);
    var n2 := [Literal(m), Placeholder(Bare(c2)), Literal(t)];
    PrependTwo(Literal(h), Placeholder(Bare(c)), ParseFrom(s2, 2), n2);
    assert n2 == [Literal(m), Placeholder(Bare(c2))] + [Literal(t)];
  }

  /** Text, then `%` and a conversion: two nodes. */
  lemma {:induction false} ParseOneBare(h: JsString, c: CodeUnit)
    requires |h| > 0 && PERCENT !in h && IsConv(c)
    ensures ParseTree(h + ([PERCENT, c] + [])) == Ok([Literal(h), Placeholder(Bare(c))])
  {
    ParseTextBare(h, c, [], 0);
    assert ParseFrom([], 2) == Ok([]);
    PrependTwo(Literal(h), Placeholder(Bare(c)), ParseFrom([], 2), []);
    assert [Literal(h), Placeholder(Bare(c))] + [] == [Literal(h), Placeholder(Bare(c))];
  }

  /** The parse tree of the message format for a property of `undefined`. */
  lemma {:induction false} NoPropertyTree()
    ensures ParseTree(NO_PROPERTY_FORMAT) == Ok([Literal(NO_PROPERTY_HEAD), Placeholder(Bare(STR)),
      Literal(NO_PROPERTY_MIDDLE), Placeholder(Bare(STR)), Literal(NO_PROPERTY_TAIL)])
  {
    ParseTwoBare(NO_PROPERTY_HEAD, STR, NO_PROPERTY_MIDDLE, STR, NO_PROPERTY_TAIL);
    assert [Literal(NO_PROPERTY_HEAD), Placeholder(Bare(STR))]
      + ([Literal(NO_PROPERTY_MIDDLE), Placeholder(Bare(STR))] + [Literal(NO_PROPERTY_TAIL)])
      == [Literal(NO_PROPERTY_HEAD), Placeholder(Bare(STR)), Literal(NO_PROPERTY_MIDDLE), Placeholder(Bare(STR)),
          Literal(NO_PROPERTY_TAIL)];
  }

  /** The parse tree of the message format for an argument that is no number. */
  lemma {:induction false} ExpectingNumberTree()
    ensures ParseTree(EXPECTING_NUMBER_FORMAT) == Ok([Literal(EXPECTING_NUMBER_HEAD), Placeholder(Bare(TYPE))])
  {
    assert EXPECTING_NUMBER_FORMAT == EXPECTING_NUMBER_HEAD + ([PERCENT, TYPE] + []);
    ParseOneBare(EXPECTING_NUMBER_HEAD, TYPE);
  }

  /** A bare `%s` writes the string it is given. */
  lemma {:induction false} BareString(s: JsString, host: HostText)
    ensures Piece(Bare(STR), Str(s), host) == Ok(s)
  {
    StringPiece(Bare(STR), Str(s), host);
    assert Truncate(ToString(Str(s)), None) == s;
    assert [] + s == s;
    UnpaddedLayout(Bare(STR), [], s);
  }

  /** A literal in front of a tree is written in front of its output. */
  lemma {:induction false} RenderLiteralThen(text: JsString, rest: seq<Node>, argv: seq<Value>, cursor: nat,
                                             format: Formatter, out: JsString)
    requires RenderFrom(rest, argv, cursor, format) == Ok(out)
    ensures RenderFrom([Literal(text)] + rest, argv, cursor, format) == Ok(text + out)
  {
    var tree := [Literal(text)] + rest;
    assert tree[0] == Literal(text) && tree[1..] == rest;
    RenderFromLiteral(tree, argv, cursor, format);
  }

  /** A placeholder taking the next argument, in front of a tree, writes its piece in front of the output. */
  lemma {:induction false} RenderImplicitThen(d: Directive, rest: seq<Node>, argv: seq<Value>, cursor: nat,
                                              format: Formatter, piece: JsString, out: JsString)
    requires d.arg.Implicit? && format(d, ArgAt(argv, cursor)) == Ok(piece)
    requires RenderFrom(rest, argv, cursor + 1, format) == Ok(out)
    ensures RenderFrom([Placeholder(d)] + rest, argv, cursor, format) == Ok(piece + out)
  {
    var tree := [Placeholder(d)] + rest;
    assert tree[0] == Placeholder(d) && tree[1..] == rest;
    RenderFromPlaceholder(tree, argv, cursor, format, ArgAt(argv, cursor), piece);
  }

  lemma {:induction false} RenderLastLiteral(text: JsString, argv: seq<Value>, cursor: nat, format: Formatter)
    ensures RenderFrom([Literal(text)], argv, cursor, format) == Ok(text)
  {
    assert RenderFrom([], argv, cursor, format) == Ok([]);
    RenderLiteralThen(text, [], argv, cursor, format, []);
    assert [Literal(text)] + [] == [Literal(text)];
    assert text + [] == text;
  }

  /** A literal and a placeholder taking the next argument, in front of a tree. */
  lemma {:induction false} RenderTextImplicitThen(text: JsString, d: Directive, rest: seq<Node>, argv: seq<Value>,
                                                  cursor: nat, format: Formatter, piece: JsString, out: JsString)
    requires d.arg.Implicit? && format(d, ArgAt(argv, cursor)) == Ok(piece)
    requires RenderFrom(rest, argv, cursor + 1, format) == Ok(out)
    ensures RenderFrom([Literal(text), Placeholder(d)] + rest, argv, cursor, format) == Ok(text + (piece + out))
  {
    RenderImplicitThen(d, rest, argv, cursor, format, piece, out);
    RenderLiteralThen(text, [Placeholder(d)] + rest, argv, cursor, format, piece + out);
    assert [Literal(text)] + ([Placeholder(d)] + rest) == [Literal(text), Placeholder(d)] + rest;
  }

  lemma {:induction false} BareStringFormatter(s: JsString, host: HostText)
    ensures PieceFormatter(host)(Bare(STR), Str(s)) == Ok(s)
  {
    BareString(s, host);
  }

  /** Text, a bare `%s`, text, a bare `%s`, text, rendered with two strings. */
  lemma {:induction false} RenderTwoStrings(h: JsString, m: JsString, t: JsString, first: Value,
                                            key: JsString, parent: JsString, host: HostText)
    ensures Render([Literal(h), Placeholder(Bare(STR))] + ([Literal(m), Placeholder(Bare(STR))] + [Literal(t)]),
      [first, Str(key), Str(parent)], host) == Ok(h + (key + (m + (parent + t))))
  {
    var f := PieceFormatter(host);
    var argv := [first, Str(key), Str(parent)];
    assert ArgAt(argv, 1) == Str(key) && ArgAt(argv, 2) == Str(parent);
    BareStringFormatter(key, host);
    BareStringFormatter(parent, host);
    var t2 := [Literal(t)];
    RenderLastLiteral(t, argv, 3, f);
    RenderTextImplicitThen(m, Bare(STR), t2, argv, 2, f, parent, t);
    var t1 := [Literal(m), Placeholder(Bare(STR))] + t2;
    RenderTextImplicitThen(h, Bare(STR), t1, argv, 1, f, key, m + (parent + t));
  }

  /** Text and a bare `%T`, rendered with one value. */
  lemma {:induction false} RenderOneType(h: JsString, first: Value, v: Value, host: HostText)
    ensures Render([Literal(h), Placeholder(Bare(TYPE))], [first, v], host) == Ok(h + TypeName(v))
  {
    var f := PieceFormatter(host);
    var argv := [first, v];
    BoolAndTypePieces(Bare(TYPE), v, host);
    assert Truncate(TypeName(v), None) == TypeName(v);
    UnpaddedLayout(Bare(TYPE), [], TypeName(v));
    assert [] + TypeName(v) == TypeName(v);
    assert f(Bare(TYPE), v) == Ok(TypeName(v));
    var t1 := [Placeholder(Bare(TYPE))];
    assert RenderFrom([], argv, 2, f) == Ok([]);
    RenderImplicitThen(Bare(TYPE), [], argv, 1, f, TypeName(v), []);
    assert t1 + [] == t1 && TypeName(v) + [] == TypeName(v);
    RenderLiteralThen(h, t1, argv, 1, f, TypeName(v));
    assert [Literal(h)] + t1 == [Literal(h), Placeholder(Bare(TYPE))];
  }

  /** A format of text, `%s`, text, `%s`, text, applied to two strings. */
  lemma {:induction false} OutputTwoStrings(h: JsString, m: JsString, t: JsString, key: JsString, parent: JsString,
                                            host: HostText)
    requires |h| > 0 && PERCENT !in h && |m| > 0 && PERCENT !in m && |t| > 0 && PERCENT !in t
    ensures Output(h + ([PERCENT, STR] + (m + ([PERCENT, STR] + t))), [Str(key), Str(parent)], host)
      == Ok(h + key + m + parent + t)
  {
    var fmt := h + ([PERCENT, STR] + (m + ([PERCENT, STR] + t)));
    ParseTwoBare(h, STR, m, STR, t);
    RenderTwoStrings(h, m, t, Str(fmt), key, parent, host);
    assert h + (key + (m + (parent + t))) == h + key + m + parent + t;
    assert [Str(fmt)] + [Str(key), Str(parent)] == [Str(fmt), Str(key), Str(parent)];
  }

  /**
   * Rendering the message format with the key and the key before it gives the
   * message of the error for a property of `undefined`.
   */
  lemma {:induction false} NoPropertyMessage(key: JsString, parent: JsString, host: HostText)
    ensures Output(NO_PROPERTY_FORMAT, [Str(key), Str(parent)], host) == Ok(Message(UndefinedProperty(key, parent)))
  {
    OutputTwoStrings(NO_PROPERTY_HEAD, NO_PROPERTY_MIDDLE, NO_PROPERTY_TAIL, key, parent, host);
  }

  /** Rendering the message format with the refused argument gives the message of the error for it. */
  lemma {:induction false} ExpectingNumberMessage(v: Value, host: HostText)
    ensures Output(EXPECTING_NUMBER_FORMAT, [v], host) == Ok(Message(ExpectingNumber(TypeName(v))))
  {
    ExpectingNumberTree();
    RenderOneType(EXPECTING_NUMBER_HEAD, Str(EXPECTING_NUMBER_FORMAT), v, host);
    assert [Str(EXPECTING_NUMBER_FORMAT)] + [v] == [Str(EXPECTING_NUMBER_FORMAT), v];
  }

  // ---------------------------------------------------------------------------
  // The cache

  /** The cache after `sprintf_parse(fmt)`: the tree is stored when the parse succeeds. */
  function Remember(entries: map<JsString, seq<Node>>, fmt: JsString): map<JsString, seq<Node>> {
    if ParseTree(fmt).Ok? then entries[fmt := ParseTree(fmt).value] else entries
  }

  /** The format of the message that `sprintf` renders for a run-time error, if any. */
  function MessageFormat(r: Result<JsString>): Option<JsString> {
    if r.Err? && r.error.UndefinedProperty? then Some(NO_PROPERTY_FORMAT)
    else if r.Err? && r.error.ExpectingNumber? then Some(EXPECTING_NUMBER_FORMAT)
    else None
  }

  /** The cache after `sprintf(fmt, ...)` gave `r`: the format, then the message format of the error. */
  function CacheAfter(entries: map<JsString, seq<Node>>, fmt: JsString, r: Result<JsString>): map<JsString, seq<Node>> {
    var m := MessageFormat(r);
    if m.Some? then Remember(Remember(entries, fmt), m.value) else Remember(entries, fmt)
  }

  /** `sprintf_cache` and the functions that go through it. */
  class FormatCache {
    var entries: map<JsString, seq<Node>>

    /** Every stored tree is the parse of its key. */
    ghost predicate Valid()
      reads this
    {
      forall f | f in entries :: ParseTree(f) == Ok(entries[f])
    }

    constructor()
      ensures Valid() && entries == map[]
    {
      entries := map[];
    }

    /** `sprintf_parse(fmt)`: a stored tree when there is one (a tree is an array, so always truthy), else a fresh parse. */
    method Parse(fmt: JsString) returns (r: Result<seq<Node>>)
      requires Valid()
      modifies this
      ensures Valid()
      ensures r == ParseTree(fmt)
      ensures entries == Remember(old(entries), fmt)
    {
      if fmt in entries {
        r := Ok(entries[fmt]);
        assert entries[fmt := entries[fmt]] == entries;
        return;
      }
      r := ParseFormat(fmt);
      if r.Ok? {
        entries := entries[fmt := r.value];
      }
    }

    /** `sprintf(fmt, ...args)`. */
    method Sprintf(fmt: JsString, args: seq<Value>, host: HostText) returns (r: Result<JsString>)
      requires Valid()
      modifies this
      ensures Valid()
      ensures r == Output(fmt, args, host)
      ensures entries == CacheAfter(old(entries), fmt, r)
    {
      ParseFromErrors(fmt, 0);
      var tree :- Parse(fmt);
      r := Format(tree, [Str(fmt)] + args, host);
      if r.Err? && r.error.UndefinedProperty? {
        var _ := Parse(NO_PROPERTY_FORMAT);
      } else if r.Err? && r.error.ExpectingNumber? {
        var _ := Parse(EXPECTING_NUMBER_FORMAT);
      }
    }

    /** `vsprintf(fmt, argv)`. */
    method Vsprintf(fmt: JsString, argv: Value, host: HostText) returns (r: Result<JsString>)
      requires Valid()
      modifies this
      ensures Valid()
      ensures r == VOutput(fmt, argv, host)
      ensures entries == CacheAfter(old(entries), fmt, r)
    {
      r := Sprintf(fmt, SpreadArgs(argv), host);
    }
  }

  /** A cached tree renders as a fresh parse would: the cache never changes an output. */
  lemma {:induction false} CachedOutput(entries: map<JsString, seq<Node>>, fmt: JsString, args: seq<Value>, host: HostText)
    requires forall f | f in entries :: ParseTree(f) == Ok(entries[f])
    requires fmt in entries
    ensures Output(fmt, args, host) == Render(entries[fmt], [Str(fmt)] + args, host)
  {
  }

  /** Once `sprintf` has run, the format is cached if and only if it parses, and so is the message format of its error. */
  lemma {:induction false} CacheAfterContents(entries: map<JsString, seq<Node>>, fmt: JsString, r: Result<JsString>)
    ensures fmt in CacheAfter(entries, fmt, r) <==> fmt in entries || ParseTree(fmt).Ok?
    ensures r.Err? && (r.error.UndefinedProperty? || r.error.ExpectingNumber?) ==>
      MessageFormat(r).value in CacheAfter(entries, fmt, r)
    ensures forall f | f in entries :: f in CacheAfter(entries, fmt, r)
  {
    if r.Err? && r.error.UndefinedProperty? {
      NoPropertyTree();
    } else if r.Err? && r.error.ExpectingNumber? {
      ExpectingNumberTree();
    }
  }
}
