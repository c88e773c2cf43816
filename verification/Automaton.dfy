/**
 * The table-driven reading of JSON: a token and the current state predict the next state, and an explicit stack keeps
 * a (saved state, count) pair for every open container.
 */
module Automaton {
  import opened Stream
  import opened Events
  import opened Grammar

  datatype State =
    | Start | Finish | Error
    | ObjectInitial | MemberKey | KeyValueDelimiter | MemberValue | MemberDelimiter | ObjectFinish
    | ArrayInitial | Element | ElementDelimiter | ArrayFinish
    | SingleValue

  datatype Token =
    | LeftBracket | RightBracket | LeftCurly | RightCurly | Comma | Colon
    | StringToken | FalseToken | TrueToken | NullToken | NumberToken

  function Tokenize(c: byte): Token {
    match c
    case 0x22 => StringToken
    case 0x2C => Comma
    case 0x3A => Colon
    case 0x5B => LeftBracket
    case 0x5D => RightBracket
    case 0x66 => FalseToken
    case 0x6E => NullToken
    case 0x74 => TrueToken
    case 0x7B => LeftCurly
    case 0x7D => RightCurly
    case _ => NumberToken
  }

  /** The row of the table for a state in which a value is expected: `single` is where a scalar leads. */
  function PredictValue(token: Token, single: State): State {
    match token
    case LeftBracket => ArrayInitial
    case LeftCurly => ObjectInitial
    case RightBracket | RightCurly | Comma | Colon => Error
    case StringToken | FalseToken | TrueToken | NullToken | NumberToken => single
  }

  /** The transition table. */
  function Predict(state: State, token: Token): State {
    match state
    case Start => PredictValue(token, SingleValue)
    case ObjectInitial => if token == RightCurly then ObjectFinish else if token == StringToken then MemberKey else Error
    case MemberKey => if token == Colon then KeyValueDelimiter else Error
    case KeyValueDelimiter => PredictValue(token, MemberValue)
    case MemberValue => if token == RightCurly then ObjectFinish else if token == Comma then MemberDelimiter else Error
    case MemberDelimiter => if token == StringToken then MemberKey else Error
    case ArrayInitial => if token == RightBracket then ArrayFinish else PredictValue(token, Element)
    case Element => if token == RightBracket then ArrayFinish else if token == Comma then ElementDelimiter else Error
    case ElementDelimiter => PredictValue(token, Element)
    case Finish | Error | ObjectFinish | ArrayFinish | SingleValue => Error
  }

  /** One open container: the state to come back to, and the number of members or elements that a comma has followed. */
  datatype Frame = Frame(saved: State, count: nat)

  /** A configuration of the loop of IterativeParse; the top of the stack is its last frame. */
  datatype Conf = Conf(state: State, pos: nat, events: seq<Event>, stack: seq<Frame>, error: ErrorCode)

  function InitialConf(e: Env): Conf { Conf(Start, SkipSpace(e.text, 0), [], [], NoError) }

  /** The states that expect a value, and the state behind a complete value. */
  predicate ExpectsValue(s: State) { s == Start || s == KeyValueDelimiter || s == ArrayInitial || s == ElementDelimiter }

  function Behind(s: State): State {
    match s
    case KeyValueDelimiter => MemberValue
    case ArrayInitial | ElementDelimiter => Element
    case _ => Finish
  }

  /** The states from which the table leads to each state. */
  lemma PredictSources(s: State, token: Token)
    ensures var dst := Predict(s, token);
            && (dst == ObjectInitial || dst == ArrayInitial ==> ExpectsValue(s))
            && (dst == MemberKey ==> s == ObjectInitial || s == MemberDelimiter)
            && (dst == KeyValueDelimiter ==> s == MemberKey)
            && (dst == MemberValue || dst == Element || dst == SingleValue ==> ExpectsValue(s) && dst == if s == Start then SingleValue else Behind(s))
            && (dst == MemberDelimiter ==> s == MemberValue)
            && (dst == ElementDelimiter ==> s == Element)
            && (dst == ObjectFinish ==> s == ObjectInitial || s == MemberValue)
            && (dst == ArrayFinish ==> s == ArrayInitial || s == Element)
            && dst != Start && dst != Finish
  {
  }

  // ---------- The invariant ----------

  /** The states in which a container is open, by its kind. */
  predicate InArray(s: State) { s == ArrayInitial || s == Element || s == ElementDelimiter }

  predicate InObject(s: State) {
    s == ObjectInitial || s == MemberKey || s == KeyValueDelimiter || s == MemberValue || s == MemberDelimiter
  }

  /**
   * The saved states fit the containers: Start is saved by the outermost container only, Element by one that is an
   * array's element and MemberValue by one that is a member's value.  `inner` is the state inside the top container.
   */
  predicate StackFits(stack: seq<Frame>, inner: State) {
    if stack == [] then inner == Start || inner == Finish
    else
      var rest, top := stack[..|stack| - 1], stack[|stack| - 1];
      && (InArray(inner) || InObject(inner))
      && (top.saved == Start || top.saved == Element || top.saved == MemberValue)
      && StackFits(rest, top.saved)
  }

  /** What one step needs of a configuration: it is the assertion of Transit and the assertions of Pop and Top. */
  predicate Fits(c: Conf) { c.state == Error || StackFits(c.stack, c.state) }

  // ---------- One step ----------

  /** The state to save when a container opens in state `src`. */
  function Saved(src: State): State {
    if src == ArrayInitial || src == ElementDelimiter then Element
    else if src == KeyValueDelimiter then MemberValue
    else src
  }

  function Fail(c: Conf, events: seq<Event>, code: ErrorCode): Conf {
    c.(state := Error, events := events, error := code)
  }

  /** Delivers an event; when the handler refuses it the parse stops. */
  function Deliver(e: Env, c: Conf, x: Event): Conf {
    var events := c.events + [x];
    if e.handler(events) then c.(events := events) else Fail(c, events, Termination)
  }

  /** The count that a closing bracket reports: a last member or element has no comma behind it. */
  function Total(c: Conf): nat
    requires c.stack != []
  {
    var count := c.stack[|c.stack| - 1].count;
    if c.state == MemberValue || c.state == Element then Inc(count) else count
  }

  /** The configuration behind a closing bracket: the state before the container is restored. */
  function Close(c: Conf): Conf
    requires c.stack != []
  {
    var k := |c.stack| - 1;
    var saved := c.stack[k].saved;
    c.(state := if saved == Start then Finish else saved, pos := c.pos + 1, stack := c.stack[..k])
  }

  /** The configuration behind an opening bracket. */
  function Open(c: Conf, dst: State): Conf {
    c.(state := dst, pos := c.pos + 1, stack := c.stack + [Frame(Saved(c.state), 0)])
  }

  /** Transit: carries out the move to the predicted state `dst`. */
  function Transit(e: Env, c: Conf, dst: State): (d: Conf)
    requires c.state != Error && StackFits(c.stack, c.state) && dst == Predict(c.state, Tokenize(Peek(e.text, c.pos)))
  {
    match dst
    case Error => c.(state := Error)
    case ObjectInitial | ArrayInitial =>
      Deliver(e, Open(c, dst), if dst == ObjectInitial then StartObject else StartArray)
    case MemberKey =>
      var o := ParseKey(e, c.pos, c.events);
      if o.Ok() then c.(state := dst, pos := o.pos, events := o.events) else Fail(c, o.events, o.error)
    case KeyValueDelimiter => c.(state := dst, pos := c.pos + 1)
    case MemberValue | Element =>
      var o := ParseScalar(e, c.pos, c.events);
      if o.Ok() then c.(state := dst, pos := o.pos, events := o.events) else Fail(c, o.events, o.error)
    case MemberDelimiter | ElementDelimiter =>
      var k := |c.stack| - 1;
      c.(state := dst, pos := c.pos + 1, stack := c.stack[k := c.stack[k].(count := Inc(c.stack[k].count))])
    case ObjectFinish => Deliver(e, Close(c), EndObject(Total(c)))
    case ArrayFinish => Deliver(e, Close(c), EndArray(Total(c)))
    case SingleValue =>
      var o := ParseScalar(e, c.pos, c.events);
      if o.Ok() then c.(state := Finish, pos := o.pos, events := o.events) else Fail(c, o.events, o.error)
  }

  /** HandleError: the code for a grammar error in state `src`, unless an error has been set. */
  function HandleError(src: State, error: ErrorCode): (code: ErrorCode)
    ensures code != NoError
  {
    if error != NoError then error
    else match src
         case Start => DocumentEmpty
         case Finish => DocumentRootNotSingular
         case ObjectInitial | MemberDelimiter => ObjectMissName
         case MemberKey => ObjectMissColon
         case MemberValue => ObjectMissCommaOrCurlyBracket
         case Element => ArrayMissCommaOrSquareBracket
         case _ => UnspecificSyntaxError
  }

  /** One turn of the loop, up to but not including the whitespace behind what was consumed. */
  function Step(e: Env, c: Conf): Conf
    requires c.state != Error && StackFits(c.stack, c.state)
  {
    Transit(e, c, Predict(c.state, Tokenize(Peek(e.text, c.pos))))
  }

  /** What a step does at an opening bracket, at a closing one, and at a comma. */
  lemma OpenStep(e: Env, c: Conf, dst: State)
    requires c.state != Error && StackFits(c.stack, c.state) && dst == Predict(c.state, Tokenize(Peek(e.text, c.pos)))
    requires dst == ObjectInitial || dst == ArrayInitial
    ensures Step(e, c) == Transit(e, c, dst) == Deliver(e, Open(c, dst), if dst == ObjectInitial then StartObject else StartArray)
  {
    hide Predict, Tokenize, StackFits, Deliver, Saved;
  }

  lemma CloseStep(e: Env, c: Conf, dst: State)
    requires c.state != Error && c.stack != [] && StackFits(c.stack, c.state) && dst == Predict(c.state, Tokenize(Peek(e.text, c.pos)))
    requires dst == ObjectFinish || dst == ArrayFinish
    ensures Step(e, c) == Transit(e, c, dst) == Deliver(e, Close(c), if dst == ObjectFinish then EndObject(Total(c)) else EndArray(Total(c)))
  {
    hide Predict, Tokenize, StackFits, Deliver, Close, Total;
  }

  lemma CommaStep(e: Env, c: Conf, dst: State)
    requires c.state != Error && c.stack != [] && StackFits(c.stack, c.state) && dst == Predict(c.state, Tokenize(Peek(e.text, c.pos)))
    requires dst == MemberDelimiter || dst == ElementDelimiter
    ensures var k := |c.stack| - 1;
            Step(e, c) == c.(state := dst, pos := c.pos + 1, stack := c.stack[k := c.stack[k].(count := Inc(c.stack[k].count))])
  {
    hide Predict, Tokenize, StackFits;
  }

  /** Each successful step consumes input. */
  lemma StepConsumes(e: Env, c: Conf)
    requires c.state != Error && StackFits(c.stack, c.state) && Peek(e.text, c.pos) != 0
    ensures Step(e, c).state != Error ==> Left(e.text, Step(e, c).pos) < Left(e.text, c.pos)
  {
    hide Tokenize, ScanScalar, ScanString;
  }

  /** Opening a container pushes a frame that fits. */
  lemma {:induction false} PushFits(stack: seq<Frame>, src: State, inner: State, count: nat)
    requires StackFits(stack, src) && (src == Start || src == KeyValueDelimiter || src == ArrayInitial || src == ElementDelimiter)
    requires inner == ObjectInitial || inner == ArrayInitial
    ensures StackFits(stack + [Frame(Saved(src), count)], inner)
  {
    assert (stack + [Frame(Saved(src), count)])[..|stack|] == stack;
    SameKindFits(stack, src, Saved(src));
  }

  /** Which state inside the top container it is does not matter. */
  lemma {:induction false} SameKindFits(stack: seq<Frame>, s: State, s': State)
    requires StackFits(stack, s) && (if stack == [] then s' == Start || s' == Finish else InArray(s') || InObject(s'))
    ensures StackFits(stack, s')
  {
  }

  lemma {:induction false} CountFits(stack: seq<Frame>, s: State, count: nat)
    requires stack != [] && StackFits(stack, s)
    ensures var k := |stack| - 1; StackFits(stack[k := stack[k].(count := count)], s)
  {
    var k := |stack| - 1;
    assert stack[k := stack[k].(count := count)][..k] == stack[..k];
  }

  lemma {:induction false} CloseFits(c: Conf)
    requires c.stack != [] && StackFits(c.stack, c.state)
    ensures StackFits(Close(c).stack, Close(c).state) && Close(c).state != Error
  {
  }

  lemma {:induction false} OpenFits(c: Conf, dst: State)
    requires StackFits(c.stack, c.state) && ExpectsValue(c.state) && (dst == ObjectInitial || dst == ArrayInitial)
    ensures StackFits(Open(c, dst).stack, dst) && Open(c, dst).state == dst
  {
    PushFits(c.stack, c.state, dst, 0);
    hide StackFits;
  }

  /** Each step keeps the shape of the stack. */
  lemma {:induction false} StepFits(e: Env, c: Conf)
    requires c.state != Error && StackFits(c.stack, c.state)
    ensures Fits(Step(e, c))
  {
    hide Tokenize, Predict, Total, ParseKey, ParseScalar, StackFits, Close, Open;
    var dst := Predict(c.state, Tokenize(Peek(e.text, c.pos)));
    PredictSources(c.state, Tokenize(Peek(e.text, c.pos)));
    StackFitsShape(c.stack, c.state);
    match dst {
      case ObjectInitial | ArrayInitial =>
        OpenFits(c, dst);
      case MemberDelimiter | ElementDelimiter =>
        CountFits(c.stack, c.state, Inc(c.stack[|c.stack| - 1].count));
        SameKindFits(Transit(e, c, dst).stack, c.state, dst);
      case ObjectFinish | ArrayFinish =>
        CloseFits(c);
      case MemberKey | KeyValueDelimiter | MemberValue | Element =>
        SameKindFits(c.stack, c.state, dst);
      case SingleValue =>
        SameKindFits(c.stack, c.state, Finish);
      case _ =>
    }
  }

  lemma StackFitsShape(stack: seq<Frame>, s: State)
    requires StackFits(stack, s)
    ensures stack == [] <==> s == Start || s == Finish
    ensures stack != [] ==> InArray(s) || InObject(s)
  {
  }

  /** IterativeParse from the head of its loop on: until the end of the text, an error, or a finished root. */
  function Run(e: Env, c: Conf): (o: Outcome)
    requires StackFits(c.stack, c.state)
    decreases Left(e.text, c.pos), 0
  {
    if Peek(e.text, c.pos) == 0 then
      Outcome(c.pos, c.events, if c.state == Finish then NoError else HandleError(c.state, NoError))
    else
      var d := Step(e, c);
      StepFits(e, c);
      StepConsumes(e, c);
      if d.state == Error then Outcome(d.pos, d.events, HandleError(c.state, d.error))
      else Continue(e, d)
  }

  /** The rest of the loop behind a successful step. */
  function Continue(e: Env, d: Conf): (o: Outcome)
    requires d.state != Error && StackFits(d.stack, d.state)
    decreases Left(e.text, d.pos), 1
  {
    if e.stopWhenDone && d.state == Finish then Outcome(d.pos, d.events, NoError)
    else Run(e, d.(pos := SkipSpace(e.text, d.pos)))
  }

  function IterativeParse(e: Env): Outcome {
    Run(e, InitialConf(e))
  }
}
