# The sprintf engine of virya_io.js

`virya_io.js` ships its own `sprintf`. A format string is compiled into a parse
tree by `sprintf_parse`. The tree holds literal strings and placeholder records,
and is cached per format string in `sprintf_cache`. `sprintf_format` then renders
the tree against the argument list. `argv[0]` of that list is the format string
itself. `sprintf(fmt, ...args)` and `vsprintf(fmt, argv)` glue the two stages together.

This project models that engine in Dafny and proves what it does:

- `jstext.dfy` (module `JsText`): JavaScript strings as sequences of UTF-16 code
  units. It also holds the character classes of the prefix patterns in `re`,
  `toString(radix)` for integers, `substring`, `toUpperCase` on ASCII letters,
  and white-space trimming.
- `outcomes.dfy` (module `Outcomes`): the exceptions the engine throws (as an
  `Error` datatype with the JavaScript class of each), their message texts, and
  the `Result` wrapper that takes the place of `throw`.
- `values.dfy` (module `Values`): argument values and the built-in coercions the
  engine relies on: `String(v)`, `!!v`, ToNumber (as far as `isNaN` and `>= 0` see
  it), `parseInt(v, 10)`, `>>> 0`, `String.fromCharCode`, the `%T` type name and
  property access.
- `parser.dfy` (module `FormatParser`): the prefix patterns written out as
  matchers, the parse loop as a method (`ParseFormat`, `ParseKeyPath`), and the
  functions that specify it (`ParseTree`, `KeyPath`, `Tokens`).
- `render.dfy` (module `FormatRender`): the render loop as a method (`Format`,
  `Lookup`) and the functions that specify it (`Render`, `Piece`, `WalkKeys`).
  It covers argument resolution, the numeric check, the conversion switch, the
  sign and the padding.
- `sprintf.dfy` (module `Sprintf`): `sprintf` and `vsprintf` as functions.
  `sprintf_cache` becomes the class `FormatCache`, whose `entries` map the
  `Parse`, `Sprintf` and `Vsprintf` methods update.

Floating-point stringification is a parameter `host: HostText`. That covers
`toExponential`, `toFixed`, `toPrecision` and `parseFloat` as used by `%e %f %g`,
and `JSON.stringify` as used by `%j`. The logic around those calls is modelled:
the numeric check, the sign, the padding, `%j` bypassing sign and padding, the
TypeError of `toPrecision` on a non-number, and the RangeErrors `toExponential`,
`toFixed` and `toPrecision` raise for a precision out of their range.

Behaviours of the code worth noting:

- Mixing named and positional placeholders throws a plain `Error`, not a
  `SyntaxError` (line 193). `Outcomes.ClassOf` and `Sprintf.OutputErrors` state this.
- `%c` is `String.fromCharCode`, which keeps the code modulo 2^16 and so one
  UTF-16 code unit (line 83). Code points above the basic plane are not preserved.
- The sign test is `arg >= 0` (line 75). Zero and `-0` count as positive, so a
  `%+d` of 0 gets a `+` and a `%d` of 0 gets no sign.
- A `'0` pad behaves like the `0` pad. `charAt(1)` gives the character `0`, and
  the layout then puts the padding between sign and digits (lines 141, 144).
- Width and precision are strings in the record, so a width or precision of `0`
  is truthy. A precision of 0 cuts `%s %t %T %v` to the empty text.

## Model

| member | source | states |
|---|---|---|
| JsText.DigitRun | virya_io.js:26 | the longest `\d*` prefix: all digits, and the next unit is no digit |
| JsText.IdentPartRun | virya_io.js:27 | the longest `[a-z_\d]*` prefix, case-insensitive: all identifier parts, and the next unit is none |
| JsText.IdentRun | virya_io.js:27 | `re.key` matches exactly when the text starts with `[a-z_]`; the match is an identifier followed by no identifier part |
| JsText.DigitRunOfDigits | virya_io.js:26 | a digit run followed by a non-digit is read as exactly that run |
| JsText.IdentPartRunOf | virya_io.js:27 | identifier parts followed by a non-part are read as exactly those |
| JsText.IdentRunOf | virya_io.js:27 | an identifier followed by a non-part is matched as exactly that identifier |
| JsText.DigitChar | virya_io.js:124 | the digit `toString(radix)` writes for `d` reads back as `d` |
| JsText.RadixText | virya_io.js:102 | `toString(b)` of a non-negative integer is never empty |
| JsText.RadixTextDigits | virya_io.js:102 | `toString(b)` writes only digits of base `b` |
| JsText.RadixTextValue | virya_io.js:124 | the digits `toString(b)` writes denote the number they came from |
| JsText.RadixTextNoLeadingZero | virya_io.js:102 | `toString(b)` starts with `0` exactly when the number is 0 |
| JsText.DecimalTextDigits | virya_io.js:117 | base-10 `toString` writes decimal digits only |
| JsText.DecimalPositive | virya_io.js:26 | a `[1-9]\d*` argument number denotes at least 1 |
| JsText.Take | virya_io.js:106 | `substring(0, n)` is a prefix of length `min(n, length)` |
| JsText.UpperAscii | virya_io.js:127 | `toUpperCase` keeps the length and maps exactly the letters a-z to A-Z |
| JsText.TrimStart | virya_io.js:80 | the trimmed text is no longer and does not start with white space |
| JsText.TrimEnd | virya_io.js:70 | the trimmed text is no longer and does not end with white space |
| JsText.TrimStartSuffix | virya_io.js:80 | trimming drops a leading run of white space only: the rest is a suffix of the text |
| JsText.TrimEndPrefix | virya_io.js:70 | trimming drops a trailing run of white space only: the rest is a prefix of the text |
| JsText.TrimStartOf | virya_io.js:80 | white space in front of a text not starting with white space is trimmed to exactly that text |
| JsText.TrimEndOf | virya_io.js:70 | white space behind a text not ending with white space is trimmed to exactly that text |
| JsText.RadixValueFront | virya_io.js:87 | a leading digit counts its value times the base to the number of digits after it |
| Outcomes.ClassOf | virya_io.js:54-211 | the syntax errors are the unexpected placeholder and the bad key; the type errors are the numeric check and the host's; the range errors are the host's; mixing is a plain `Error` |
| Values.Truthy | virya_io.js:39 | arrays and objects are truthy; `undefined` and `null` are not |
| Values.ExceedsMeaning | virya_io.js:75 | the doubling test compares `x * 2^p` with `10^j`, as the underflow threshold of ToNumber needs |
| Values.ToNumber | virya_io.js:70-75 | a number keeps its sign; `undefined` and objects are NaN; `null` and booleans are non-negative numbers |
| Values.StringToNumberOfIntText | virya_io.js:70-75 | the decimal text of an integer, with white space around it, is a number of the integer's sign |
| Values.ScanMantissaDigits | virya_io.js:70-75 | a run of decimal digits accumulates to the value before it times 10 to their count plus their decimal value |
| Values.FloatPrefixFound | virya_io.js:93 | parseFloat finds a number exactly when the text starts with a digit, or with `.` and a digit |
| Values.FloatPrefixDigits | virya_io.js:93 | a text of decimal digits only is read as its decimal value, with no decimal exponent |
| Values.AtLeastScaledMeaning | virya_io.js:93 | the doubling test decides `x >= y * 2^p` |
| Values.FloatOfNonNumbers | virya_io.js:93 | parseFloat of `undefined`, `null`, a boolean or an object is not finite |
| Values.FloatOfIntText | virya_io.js:93 | parseFloat of the decimal text of an integer below 2^53 is finite |
| Values.ParseIntOfSignedDigits | virya_io.js:87 | parseInt of an optional sign and digits is their signed decimal value |
| Values.ParseIntOfIntText | virya_io.js:87 | parseInt reads back the integer `String(n)` wrote |
| Values.ParseIntOfNumber | virya_io.js:87 | `parseInt(n, 10)` of an integer is that integer |
| Values.ToUint32 | virya_io.js:117 | `>>> 0` lies below 2^32, is the identity there, and differs from the input by a multiple of 2^32 |
| Values.ToUint16 | virya_io.js:83 | `fromCharCode` keeps a code below 2^16 and otherwise reduces it modulo 2^16 |
| Values.Property | virya_io.js:56 | `v[key]` of an object is the own property or `undefined`; booleans and numbers have none |
| FormatParser.TextRun | virya_io.js:24 | `re.text`: the longest prefix without `%`, stopped by a `%` |
| FormatParser.UpToRParen | virya_io.js:26 | `[^)]+` stops at the first `)` |
| FormatParser.ArgPart | virya_io.js:26 | the optional group `n$` or `(field)`: never both, `n` starts with 1-9, the field is non-empty and has no `)`; its text plus the rest is the input |
| FormatParser.FlagPart | virya_io.js:26 | `(\+)?` and `(-)?` are taken exactly when the character is there |
| FormatParser.PadPart | virya_io.js:26 | the optional pad group, `0` or a quote and a character other than `$`, takes a valid pad; when it takes none, the text starts with neither `0` nor a quote before a non-`$` |
| FormatParser.DigitsPart | virya_io.js:26 | `(\d+)?` takes a digit run; when it takes none, no digit follows |
| FormatParser.PrecisionPart | virya_io.js:26 | `(?:\.(\d+))?` takes `.` and digits, and the text splits around it |
| FormatParser.MatchPlaceholder | virya_io.js:26 | a match is well formed and its text plus the rest is the input |
| FormatParser.MatchPlaceholderWellFormed | virya_io.js:26 | the groups checked one by one make a well-formed match |
| FormatParser.MatchPlaceholderComplete | virya_io.js:26 | every well-formed match followed by any text is matched back as it is |
| FormatParser.GroupsComplete | virya_io.js:26 | each group of the pattern reads back its part of a well-formed match |
| FormatParser.MatchPlaceholderIff | virya_io.js:26 | `re.placeholder` matches with groups `m` and rest `t` exactly when the text is `m`'s text followed by `t` and `m` is well formed |
| FormatParser.Accessor | virya_io.js:28-29 | `re.key_access` or `re.index_access`: the key is an identifier or digits, and the consumed prefix is `.key` or `[key]` |
| FormatParser.AccessorOf | virya_io.js:28-29 | an accessor's text followed by `.`, `[` or nothing is read back as that key |
| FormatParser.KeyAccessOf | virya_io.js:28 | `.identifier` is read as that key |
| FormatParser.IndexAccessOf | virya_io.js:29 | `[digits]` is read as that key |
| FormatParser.Accessors | virya_io.js:172-182 | the loop over the keys after the first fails only with the bad-key error and yields identifiers or digit strings |
| FormatParser.AccessorsOfText | virya_io.js:172-182 | the text of a list of keys is read back as that list |
| FormatParser.TextOfAccessors | virya_io.js:172-182 | whatever the loop accepts is the text of the keys it returns |
| FormatParser.KeyPath | virya_io.js:169-187 | the key path of a field fails only with the bad-key error |
| FormatParser.ParseKeyPath | virya_io.js:169-187 | the key loop returns the key path of the field |
| FormatParser.KeyPathOfText | virya_io.js:169-187 | every valid key path written out is read back as itself |
| FormatParser.TextOfKeyPath | virya_io.js:169-187 | an accepted field is a valid key path written out: an identifier, then `.identifier` or `[digits]` segments, in order |
| FormatParser.KeyPathParts | virya_io.js:170-172 | the first key is the leading identifier; the rest come from the accessors after it |
| FormatParser.ArgRefOf | virya_io.js:167-191 | a named reference exactly for a `(field)` group; the only failure is a bad key in a field |
| FormatParser.ParseStep | virya_io.js:160-213 | one loop step consumes a non-empty prefix that is exactly the node's source text; it fails only with the unexpected-placeholder or bad-key error |
| FormatParser.PlaceholderStep | virya_io.js:166-209 | the placeholder branch consumes the matched text and fails only with those two errors |
| FormatParser.StepLiteral | virya_io.js:160-165 | a literal is `%` from `%%`, or a maximal `%`-free run |
| FormatParser.StepUnexpected | virya_io.js:210-211 | the step rejects a `%` as unexpected exactly when it starts neither `%%` nor a placeholder |
| FormatParser.ParseFromErr | virya_io.js:159-213 | an error in a step is the error of the loop |
| FormatParser.ParseFromMixed | virya_io.js:192-194 | a step that brings `arg_names` to 3 fails the loop with the mixing error |
| FormatParser.ParseFromCons | virya_io.js:159-213 | otherwise the loop pushes the node and goes on with the rest of the text |
| FormatParser.NextNode | virya_io.js:160-212 | the loop body computes the step |
| FormatParser.ParseFormat | virya_io.js:158-215 | the parse loop returns the tree or the error of the format |
| FormatParser.FlagsOfBits | virya_io.js:168-190 | bit 1 of `arg_names` is set exactly when there is a named placeholder; bit 2 exactly when there is a positional one |
| FormatParser.FlagsOfMixed | virya_io.js:192 | `arg_names == 3` exactly when the nodes mix named and positional placeholders |
| FormatParser.ParseFromTokens | virya_io.js:159-214 | the loop yields the nodes parsed one by one, or the mixing error when the flags of all of them together are 3 |
| FormatParser.ParseTreeTokens | virya_io.js:158-214 | a format parses exactly when every node parses and they do not mix, in whatever order the placeholders come; a mix of parsed nodes is the mixing error |
| FormatParser.TokensUnparse | virya_io.js:213 | the nodes written back are the text they were parsed from |
| FormatParser.ParseTreeUnparse | virya_io.js:159-213 | writing a parse tree back, `%` as `%%`, gives the format string |
| FormatParser.PlainTextParse | virya_io.js:160-161 | a non-empty text without `%` is one literal equal to the text |
| FormatParser.EscapedPercentParse | virya_io.js:163-164 | `%%` parses to the literal `%` |
| FormatParser.PlaceholderStepDirective | virya_io.js:196-208 | a placeholder record has a conversion, a valid pad, a valid key path when named, and an argument number of at least 1 |
| FormatParser.StepDirective | virya_io.js:196-208 | every placeholder a step builds is such a record |
| FormatParser.TokensDirectives | virya_io.js:196-208 | every placeholder among the parsed nodes is such a record |
| FormatParser.ParseTreeDirectives | virya_io.js:196-208 | every placeholder of a parse tree is such a record |
| FormatRender.WalkKeys | virya_io.js:52-57 | the key walk fails only with the undefined-property error |
| FormatRender.Lookup | virya_io.js:50-57 | the key loop computes the key walk from `argv[cursor]` |
| FormatRender.WalkKeysPath | virya_io.js:52-57 | the walk succeeds exactly when no prefix of the path ends at `undefined` or `null`, and yields the value at the end of the path |
| FormatRender.WalkKeysFailure | virya_io.js:53-54 | a failing walk fails at the first such prefix, naming the key after it and the one before it |
| FormatRender.Converted | virya_io.js:78-129 | the conversion switch fails only with a TypeError or a RangeError of the host |
| FormatRender.Repeat | virya_io.js:143 | `repeat(n)` is `n` times as long |
| FormatRender.Piece | virya_io.js:66-145 | a placeholder fails only with the numeric-check error or a host TypeError or RangeError |
| FormatRender.RenderFromLiteral | virya_io.js:45-46 | a literal is copied in front of the rest of the output |
| FormatRender.RenderFromPlaceholder | virya_io.js:48-64 | a placeholder writes its piece in front of the rest, which goes on at the next cursor |
| FormatRender.RenderFromError | virya_io.js:53-71 | a failing placeholder fails the render |
| FormatRender.Format | virya_io.js:42-149 | the render loop computes the rendering of the tree |
| FormatRender.RenderSlots | virya_io.js:43-64 | the output is the nodes' texts in order, the `k`-th implicit placeholder reading `argv[cursor + k]`, with explicit and named ones leaving the cursor alone |
| FormatRender.NamedReadsFirst | virya_io.js:50-51 | in a parsed format every key path starts at `argv[1]`: no implicit placeholder comes before it |
| FormatRender.ImplicitsPositional | virya_io.js:189-190 | a tree with an implicit placeholder has a positional one |
| FormatRender.RenderIgnoresFirst | virya_io.js:43 | from cursor 1 on, no placeholder of a parsed tree reads `argv[0]` |
| FormatRender.PieceFailure | virya_io.js:66-127 | a placeholder fails exactly on the numeric check or where the conversion fails; the numeric check gives the expecting-number error with the type name |
| FormatRender.ConvertedFailure | virya_io.js:92-121 | the switch fails exactly on `%e` with a precision over 100 of a finite parseFloat, `%f` with a precision over 100, `%g` with a precision of a non-number or outside 1 to 100, and `%v` of `undefined`, `null` or, with a precision, a non-string |
| FormatRender.ConvertedErrors | virya_io.js:92-99 | the `%e %f %g` cases raise their own error: a RangeError naming `toExponential`, `toFixed` or `toPrecision`, or for `%g` of a non-number a TypeError naming `toPrecision`; the switch raises a RangeError exactly in the three range cases |
| FormatRender.ExponentRange | virya_io.js:92-93 | `%e` with a precision over 100 raises the RangeError for an integer or its text, and writes the host text for the arguments parseFloat makes NaN |
| FormatRender.IntTextArgument | virya_io.js:70-75 | the numeric check lets the text of an integer through, and its sign is the integer's |
| FormatRender.RefusedArguments | virya_io.js:70 | the numeric check refuses `undefined` and objects, never `null`, booleans or numbers, and a string exactly when it is no number |
| FormatRender.PieceOf | virya_io.js:130-144 | `%j` writes the converted text as it is; every other conversion writes it signed and padded |
| FormatRender.JsonPiece | virya_io.js:130-131 | `%j` writes the host's JSON text with no sign or padding |
| FormatRender.SignRule | virya_io.js:134-140 | `-` for a negative argument, `+` with the flag, else nothing; a sign the text had is stripped once |
| FormatRender.NoSign | virya_io.js:134-140 | conversions other than `d i e f g` get no sign |
| FormatRender.PadCharOfParsed | virya_io.js:141 | the pad character is one character: a space, `0`, or the one after the quote |
| FormatRender.PaddedLayout | virya_io.js:141-144 | the piece is as long as the width or as sign and text together, whichever is more, padding all of the pad character, after the text for `-`, between sign and text for `0`, in front otherwise |
| FormatRender.PadAll | virya_io.js:142-143 | the padding is `max(0, width - length)` pad characters |
| FormatRender.UnpaddedLayout | virya_io.js:143-144 | without a width, or with one the text reaches, sign and text are written as they are |
| FormatRender.ConvertedDecimal | virya_io.js:85-88 | `%d %i` of a number convert it to its own decimal text |
| FormatRender.SignedIntText | virya_io.js:134-136 | the sign rule applied to that text gives the sign and the digits of the number |
| FormatRender.DecimalPiece | virya_io.js:85-144 | `%d` of a number is its sign (or the flag's `+`) and decimal digits, padded |
| FormatRender.SignedDigitsRead | virya_io.js:87 | parseInt reads back the number from its sign and digits |
| FormatRender.DecimalRoundTrip | virya_io.js:85-144 | without a width, `%d` writes a text parseInt reads back as the argument |
| FormatRender.StringPiece | virya_io.js:104-107 | `%s` writes a prefix of `String(v)` cut to the precision, padded |
| FormatRender.ConvertedUnsigned | virya_io.js:101-125 | `%o %u %x` convert ToUint32 of parseInt's result to base 8, 10 or 16 |
| FormatRender.UnsignedPiece | virya_io.js:101-125 | those digits read back as ToUint32 of the argument, have no leading zero unless it is 0, and for a number are the number modulo 2^32 |
| FormatRender.UpperHexPiece | virya_io.js:126-127 | `%X` is the upper-case `%x` text: digits and A-F only |
| FormatRender.BinaryPiece | virya_io.js:79-80 | `%b` is a sign and the binary digits of the number, not 32 bits, and they read back as its magnitude |
| FormatRender.CharPiece | virya_io.js:82-83 | `%c` of a number is the one code unit the number is modulo 2^16 |
| FormatRender.BoolAndTypePieces | virya_io.js:108-115 | `%t` and `%T` never fail and write `true`/`false` or the type name, cut to the precision, padded |
| Sprintf.VOutputArgs | virya_io.js:38-40 | `vsprintf` passes an array's elements, nothing for a falsy `argv`, and any other value as the one argument |
| Sprintf.OutputIgnoresFormat | virya_io.js:33-35 | the format string in `argv[0]` is never read: any value there renders alike |
| Sprintf.OutputPlainText | virya_io.js:33-35 | a format without `%` is its own output, whatever the arguments |
| Sprintf.ParseFromErrors | virya_io.js:180-211 | the parse loop throws only the three parse errors |
| Sprintf.RenderFromErrors | virya_io.js:53-71 | the render loop throws only the three render errors |
| Sprintf.OutputErrors | virya_io.js:33-35 | a parse error is the error of `sprintf`; an error of `sprintf` comes from the parser exactly when it is a parse error; of those, all but mixing are syntax errors |
| Sprintf.ParseTwoBare | virya_io.js:54 | text, a bare placeholder, text, a bare placeholder, text parse to those five nodes |
| Sprintf.ParseOneBare | virya_io.js:71 | text and a bare placeholder parse to those two nodes |
| Sprintf.NoPropertyTree | virya_io.js:54 | the tree of the undefined-property message format |
| Sprintf.ExpectingNumberTree | virya_io.js:71 | the tree of the expecting-number message format |
| Sprintf.BareString | virya_io.js:104-107 | a bare `%s` writes the string it is given |
| Sprintf.RenderTwoStrings | virya_io.js:54 | that five-node tree rendered with two strings puts them between the texts |
| Sprintf.RenderOneType | virya_io.js:71 | text and `%T` rendered with a value is the text and the value's type name |
| Sprintf.OutputTwoStrings | virya_io.js:54 | `sprintf` of such a format with two strings is the texts with the strings between them |
| Sprintf.NoPropertyMessage | virya_io.js:54 | `sprintf` of the message format with the key and the previous key gives the undefined-property message |
| Sprintf.ExpectingNumberMessage | virya_io.js:71 | `sprintf` of the message format with the refused argument gives the expecting-number message |
| Sprintf.FormatCache.constructor | virya_io.js:151 | the cache starts empty and coherent |
| Sprintf.FormatCache.Parse | virya_io.js:153-216 | `sprintf_parse` returns the parse of the format, hit or miss; it stores the tree under exactly that key on success, changes no other entry, and keeps every stored tree the parse of its key |
| Sprintf.FormatCache.Sprintf | virya_io.js:33-36 | `sprintf` returns the output of the format; the cache gains the format if it parses and the message format of a run-time error |
| Sprintf.FormatCache.Vsprintf | virya_io.js:38-40 | `vsprintf` returns the output with the spread arguments and updates the cache alike |
| Sprintf.CachedOutput | virya_io.js:154-155 | a cached tree renders exactly as a fresh parse would |
| Sprintf.CacheAfterContents | virya_io.js:151-215 | after `sprintf`, the format is cached exactly when it was before or it parses; the message format of a run-time error is cached; no key is dropped |

## Left out

- `print`, `printf`, `DRAW_LINE`, `EXPLAIN`, `type` and the `print_obj*` helpers (lines 219-288): console output around `vsprintf`.
- The module export and AMD plumbing (lines 291-335).
- Auto-invoking a function argument (lines 66-68): arguments are plain values and the datatype has no functions.
- Floating-point text of `%e %f %g` and the JSON text of `%j` (lines 89-100): they are the `host` parameter. The RangeErrors of `toExponential`, `toFixed` and `toPrecision` are not; they are modelled in `FormatRender.Converted`.
- Numbers are integers. Fractions, `NaN`, `Infinity` and `-0` as argument values are out, as is double rounding at or above 2^53 and the exponent notation `String(n)` uses at or above 10^21.
- Date, RegExp, boxed primitives and objects with their own `toString` or `valueOf` are out. Only own properties are read, so inherited ones such as `(5).toFixed` or `[].map` through the prototype are out (the model reads them as `undefined`); arrays and strings expose their indices and `length`.
- `Values.ToNumber`: it keeps only NaN-ness and the sign after rounding, since the engine uses nothing else. The numeric value is not modelled.
- `Sprintf.SpreadArgs`: `concat` spreading by `Symbol.isConcatSpreadable` is not modelled; only arrays are spread.
- A format that is not a string, which the source coerces, is out: the format is a `JsString`.
- `sprintf_cache` is one global object; here it is a `FormatCache` instance that the methods are called on. The source returns the cached array itself, so a caller that mutated it would change later outputs; the model's trees are values and that aliasing is not modelled.
- The two run-time messages are built by a nested `sprintf` call. `FormatCache.Sprintf` stores the message format in the cache as that call would. The message itself is the `Message` of the error, and `NoPropertyMessage` and `ExpectingNumberMessage` prove it equal to what the nested call renders.
- `String.prototype.repeat` throwing for a count that is too long is not modelled, since strings are unbounded.
