/** What a SAX handler sees, and the environment a parse runs in. */
module Events {
  import opened Stream

  datatype Event =
    | Null
    | Bool(b: bool)
    | Int(i: int)
    | Uint(u: nat)
    | Int64(i64: int)
    | Uint64(u64: nat)
    | Double(bits: nat)
    | String(str: seq<byte>)
    | StartObject
    | Key(name: seq<byte>)
    | EndObject(members: nat)
    | StartArray
    | EndArray(elements: nat)

  /**
   * A handler, as a verdict on the events delivered so far: whether its method for the last of them returned true.
   * This covers handlers with any internal state.
   */
  type Handler = seq<Event> -> bool

  datatype ErrorCode =
    | NoError
    | DocumentEmpty
    | DocumentRootNotSingular
    | ValueInvalid
    | ObjectMissName
    | ObjectMissColon
    | ObjectMissCommaOrCurlyBracket
    | ArrayMissCommaOrSquareBracket
    | StringUnicodeEscapeInvalidHex
    | StringUnicodeSurrogateInvalid
    | StringEscapeInvalid
    | StringMissQuotationMark
    | StringInvalidEncoding
    | NumberTooBig
    | NumberMissFraction
    | NumberMissExponent
    | Termination
    | UnspecificSyntaxError

  /** What the floating-point part of ParseNumber makes of a number: its last byte's offset and the double, or an error. */
  datatype DoubleResult = DoubleAt(extra: nat, bits: nat) | DoubleError(code: DoubleErrorCode)

  type DoubleErrorCode = c: ErrorCode | c == NumberTooBig || c == NumberMissFraction || c == NumberMissExponent witness NumberTooBig

  /**
   * What a parse depends on: the text, the handler, the flags, and the floating-point part of ParseNumber,
   * which is a parameter: given the text and where a number starts it says what that number is as a double.
   */
  datatype Env = Env(text: Text, handler: Handler, validateEncoding: bool, stopWhenDone: bool, double: (Text, nat) -> DoubleResult)

  const SIZE_LIMIT: nat := 0x1_0000_0000

  /** SizeType is a 32-bit unsigned integer; its increment wraps. */
  function Inc(n: nat): (r: nat)
    ensures n < 0xFFFF_FFFF ==> r == n + 1
    ensures n == 0xFFFF_FFFF ==> r == 0
  {
    (n + 1) % SIZE_LIMIT
  }

  /** The handler never refuses. */
  ghost predicate Plain(e: Env) { forall events: seq<Event> :: e.handler(events) }
}
