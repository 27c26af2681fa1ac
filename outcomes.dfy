/**
 * The exceptions the format engine of virya_io.js raises, and the
 * Option/Result wrappers the model uses in place of `undefined` groups and
 * `throw`.
 */
module Outcomes {
  import opened JsText

  datatype Option<T> = None | Some(value: T)

  datatype Error =
    /** A `%` that starts neither `%%` nor a placeholder. */
    | UnexpectedPlaceholder
    /** Text inside `(...)` that is not a key path. */
    | BadNamedKey
    /** One format string with both named and positional placeholders. */
    | MixedPlaceholders
    /** A key applied to `undefined` or `null`; `parent` is the previous key (`undefined` for the first). */
    | UndefinedProperty(key: JsString, parent: JsString)
    /** A numeric conversion given something that is no number; `found` is what `%T` prints for it. */
    | ExpectingNumber(found: JsString)
    /** A TypeError the JavaScript engine raises itself, calling the named method on a value that lacks it. */
    | HostTypeError(member: JsString)
    /** A RangeError the JavaScript engine raises itself: the named method refuses the precision it is given. */
    | HostRangeError(member: JsString)

  /** The JavaScript class of the thrown object. */
  datatype ErrorClass = SyntaxErrorClass | TypeErrorClass | RangeErrorClass | PlainErrorClass

  function ClassOf(e: Error): (c: ErrorClass)
    ensures c == SyntaxErrorClass <==> e.UnexpectedPlaceholder? || e.BadNamedKey?
    ensures c == TypeErrorClass <==> e.ExpectingNumber? || e.HostTypeError?
    ensures c == RangeErrorClass <==> e.HostRangeError?
  {
    match e
    case UnexpectedPlaceholder => SyntaxErrorClass
    case BadNamedKey => SyntaxErrorClass
    case MixedPlaceholders => PlainErrorClass
    case UndefinedProperty(_, _) => PlainErrorClass
    case ExpectingNumber(_) => TypeErrorClass
    case HostTypeError(_) => TypeErrorClass
    case HostRangeError(_) => RangeErrorClass
  }

  // The text of the messages, as code units.
  const SPRINTF_TAG: JsString := [0x5B, 0x73, 0x70, 0x72, 0x69, 0x6E, 0x74, 0x66, 0x5D, 0x20]  // "[sprintf] "
  const UNEXPECTED_TEXT: JsString :=  // "unexpected placeholder"
    [0x75, 0x6E, 0x65, 0x78, 0x70, 0x65, 0x63, 0x74, 0x65, 0x64, 0x20, 0x70, 0x6C, 0x61, 0x63, 0x65, 0x68, 0x6F,
     0x6C, 0x64, 0x65, 0x72]
  const BAD_KEY_TEXT: JsString :=  // "failed to parse named argument key"
    [0x66, 0x61, 0x69, 0x6C, 0x65, 0x64, 0x20, 0x74, 0x6F, 0x20, 0x70, 0x61, 0x72, 0x73, 0x65, 0x20, 0x6E, 0x61,
     0x6D, 0x65, 0x64, 0x20, 0x61, 0x72, 0x67, 0x75, 0x6D, 0x65, 0x6E, 0x74, 0x20, 0x6B, 0x65, 0x79]
  const MIXING_TEXT: JsString :=  // "mixing positional and named placeholders is not (yet) supported"
    [0x6D, 0x69, 0x78, 0x69, 0x6E, 0x67, 0x20, 0x70, 0x6F, 0x73, 0x69, 0x74, 0x69, 0x6F, 0x6E, 0x61, 0x6C, 0x20,
     0x61, 0x6E, 0x64, 0x20, 0x6E, 0x61, 0x6D, 0x65, 0x64, 0x20, 0x70, 0x6C, 0x61, 0x63, 0x65, 0x68, 0x6F, 0x6C,
     0x64, 0x65, 0x72, 0x73, 0x20, 0x69, 0x73, 0x20, 0x6E, 0x6F, 0x74, 0x20, 0x28, 0x79, 0x65, 0x74, 0x29, 0x20,
     0x73, 0x75, 0x70, 0x70, 0x6F, 0x72, 0x74, 0x65, 0x64]
  const NO_PROPERTY_HEAD: JsString :=  // "[sprintf] Cannot access property \""
    SPRINTF_TAG + [0x43, 0x61, 0x6E, 0x6E, 0x6F, 0x74, 0x20, 0x61, 0x63, 0x63, 0x65, 0x73, 0x73, 0x20, 0x70, 0x72,
     0x6F, 0x70, 0x65, 0x72, 0x74, 0x79, 0x20, 0x22]
  const NO_PROPERTY_MIDDLE: JsString :=  // "\" of undefined value \""
    [0x22, 0x20, 0x6F, 0x66, 0x20, 0x75, 0x6E, 0x64, 0x65, 0x66, 0x69, 0x6E, 0x65, 0x64, 0x20, 0x76, 0x61, 0x6C,
     0x75, 0x65, 0x20, 0x22]
  const NO_PROPERTY_TAIL: JsString := [0x22]  // "\""
  const EXPECTING_NUMBER_HEAD: JsString :=  // "[sprintf] expecting number but found "
    SPRINTF_TAG + [0x65, 0x78, 0x70, 0x65, 0x63, 0x74, 0x69, 0x6E, 0x67, 0x20, 0x6E, 0x75, 0x6D, 0x62, 0x65, 0x72,
     0x20, 0x62, 0x75, 0x74, 0x20, 0x66, 0x6F, 0x75, 0x6E, 0x64, 0x20]

  /** The two format strings the engine renders with itself to build its run-time messages. */
  const NO_PROPERTY_FORMAT: JsString :=
    NO_PROPERTY_HEAD + ([PERCENT, 0x73] + (NO_PROPERTY_MIDDLE + ([PERCENT, 0x73] + NO_PROPERTY_TAIL)))
  const EXPECTING_NUMBER_FORMAT: JsString := EXPECTING_NUMBER_HEAD + [PERCENT, 0x54]

  /** The message text of the errors the engine raises itself. */
  function Message(e: Error): JsString
    requires !e.HostTypeError? && !e.HostRangeError?
  {
    match e
    case UnexpectedPlaceholder => SPRINTF_TAG + UNEXPECTED_TEXT
    case BadNamedKey => SPRINTF_TAG + BAD_KEY_TEXT
    case MixedPlaceholders => SPRINTF_TAG + MIXING_TEXT
    case UndefinedProperty(key, parent) => NO_PROPERTY_HEAD + key + NO_PROPERTY_MIDDLE + parent + NO_PROPERTY_TAIL
    case ExpectingNumber(found) => EXPECTING_NUMBER_HEAD + found
  }

  datatype Result<T> = Ok(value: T) | Err(error: Error) {
    predicate IsFailure() {
      Err?
    }

    function PropagateFailure<U>(): Result<U>
      requires Err?
    {
      Err(error)
    }

    function Extract(): T
      requires Ok?
    {
      value
    }
  }

  /** `xs` put in front of a successful result; an error passes through. */
  function PrependSeq<T>(xs: seq<T>, r: Result<seq<T>>): (q: Result<seq<T>>)
    ensures q.Ok? <==> r.Ok?
    ensures r.Ok? ==> q.value == xs + r.value
    ensures r.Err? ==> q == Err(r.error)
  {
    match r
    case Ok(ys) => Ok(xs + ys)
    case Err(e) => Err(e)
  }

  lemma PrependNil<T>(r: Result<seq<T>>)
    ensures PrependSeq([], r) == r
  {
    if r.Ok? {
      assert [] + r.value == r.value;
    }
  }

  lemma PrependTwice<T>(xs: seq<T>, ys: seq<T>, r: Result<seq<T>>)
    ensures PrependSeq(xs, PrependSeq(ys, r)) == PrependSeq(xs + ys, r)
  {
    if r.Ok? {
      assert xs + (ys + r.value) == (xs + ys) + r.value;
    }
  }
}
