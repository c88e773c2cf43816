/** The automaton and the recursive-descent parser are the same parser. */
module Equivalence {
  import opened Stream
  import opened Events
  import opened Grammar
  import opened Automaton

  /** A configuration of the loop between two steps. */
  predicate Live(c: Conf) { c.state != Error && c.error == NoError && StackFits(c.stack, c.state) }

  /** The automaton stops in `c` or in its next step, with these events delivered and this error. */
  predicate Stops(e: Env, c: Conf, events: seq<Event>, code: ErrorCode)
    requires Live(c)
  {
    code != NoError && Run(e, c).error == code && Run(e, c).events == events
  }

  // ---------- Error codes ----------

  /** The bytes that the table refuses where a value is expected: comma, colon, closing brackets, the end of the text. */
  predicate NoValue(b: byte) { b == 0x2C || b == 0x3A || b == 0x5D || b == 0x7D || b == 0 }

  predicate IsOpening(b: byte) { b == 0x5B || b == 0x7B }

  /** The value expected at `c` is the root, and no container. */
  predicate AtRoot(e: Env, c: Conf) { c.state == Start && !IsOpening(Peek(e.text, c.pos)) }

  /**
   * The automaton's code for an error of the recursive parser: the same one, except that the table knows no value in
   * front of punctuation.  There it reports an empty document for the root and an unspecific error in a container.
   */
  function CodeFor(e: Env, root: bool, o: Outcome): ErrorCode {
    if o.error == ValueInvalid && NoValue(Peek(e.text, o.pos)) then (if root then DocumentEmpty else UnspecificSyntaxError)
    else o.error
  }

  /** The next steps of the automaton lead from `c` to the end of a step in `d`. */
  predicate Reaches(e: Env, c: Conf, d: Conf)
    requires Live(c)
  {
    Live(d) && Run(e, c) == Continue(e, d)
  }

  /**
   * The automaton from `c` on does what the recursive function did: it stops with the same events delivered, or it
   * goes on behind what the function parsed, in state `s` with `stack`.
   */
  predicate Follows(e: Env, c: Conf, o: Outcome, s: State, stack: seq<Frame>)
    requires Live(c)
  {
    if o.Ok() then Reaches(e, c, Conf(s, o.pos, o.events, stack, NoError)) else Stops(e, c, o.events, CodeFor(e, AtRoot(e, c), o))
  }

  // ---------- Single steps ----------

  lemma {:induction false} Turn(e: Env, c: Conf)
    requires Live(c) && Peek(e.text, c.pos) != 0
    ensures var d := Step(e, c); if d.state == Error then Stops(e, c, d.events, HandleError(c.state, d.error)) else Reaches(e, c, d)
  {
    StepFits(e, c);
    StepClean(e, c);
    hide Step, StackFits;
  }

  lemma {:induction false} StepClean(e: Env, c: Conf)
    requires Live(c)
    ensures Step(e, c).state != Error ==> Step(e, c).error == NoError
  {
    hide Predict, Tokenize, StackFits;
  }

  /** One turn of the loop in terms of the move that the table predicts. */
  lemma StepUnfold(e: Env, c: Conf)
    requires Live(c) && Peek(e.text, c.pos) != 0
    ensures var n := Transit(e, c, Predict(c.state, Tokenize(Peek(e.text, c.pos))));
            if n.state == Error then
              Run(e, c) == Outcome(n.pos, n.events, HandleError(c.state, n.error))
            else
              && Live(n) && Run(e, c) == Continue(e, n)
              && Left(e.text, SkipSpace(e.text, n.pos)) < Left(e.text, c.pos)
  {
    Turn(e, c);
    StepConsumes(e, c);
    hide StackFits, Transit, Predict, Tokenize;
  }

  /** At the end of the text and wherever the table has no entry the automaton stops. */
  lemma {:induction false} Stuck(e: Env, c: Conf)
    requires Live(c) && c.state != Finish
    requires Peek(e.text, c.pos) == 0 || Predict(c.state, Tokenize(Peek(e.text, c.pos))) == Error
    ensures Stops(e, c, c.events, HandleError(c.state, NoError))
  {
    if Peek(e.text, c.pos) != 0 {
      Turn(e, c);
    }
    hide StackFits, Predict, Tokenize;
  }

  /** Between two steps inside a container only whitespace is skipped. */
  lemma {:induction false} Onward(e: Env, c: Conf, d: Conf)
    requires Live(c) && Reaches(e, c, d) && d.state != Finish
    ensures var n := d.(pos := SkipSpace(e.text, d.pos)); Live(n) && Run(e, c) == Run(e, n)
  {
    hide Run, StackFits;
  }

  /** What the table says where a value is expected and what is there is not a container. */
  lemma ScalarEntry(e: Env, s: State, p: nat)
    requires ExpectsValue(s) && (s == ArrayInitial ==> Peek(e.text, p) != RBRACKET)
    requires Peek(e.text, p) != LCURLY && Peek(e.text, p) != LBRACKET && Peek(e.text, p) != 0
    ensures var dst := Predict(s, Tokenize(Peek(e.text, p)));
            if NoValue(Peek(e.text, p)) then dst == Error else dst == if s == Start then SingleValue else Behind(s)
  {
  }

  lemma NoScalar(e: Env, p: nat, events: seq<Event>)
    requires NoValue(Peek(e.text, p))
    ensures ParseScalar(e, p, events) == Outcome(p, events, ValueInvalid)
  {
  }

  lemma ScalarFails(e: Env, p: nat, events: seq<Event>)
    ensures var o := ParseScalar(e, p, events); !o.Ok() ==> o.pos == p || o.error == Termination
  {
    hide ScanScalar;
  }

  /** One step of the automaton is one scalar. */
  lemma {:induction false} ScalarFollows(e: Env, c: Conf)
    requires Live(c) && ExpectsValue(c.state) && (c.state == ArrayInitial ==> Peek(e.text, c.pos) != RBRACKET)
    requires Peek(e.text, c.pos) != LCURLY && Peek(e.text, c.pos) != LBRACKET
    ensures Follows(e, c, ParseScalar(e, c.pos, c.events), Behind(c.state), c.stack)
  {
    hide Stops, Reaches, Predict, Tokenize, StackFits, ParseScalar;
    if Peek(e.text, c.pos) != 0 {
      ScalarEntry(e, c.state, c.pos);
    }
    if NoValue(Peek(e.text, c.pos)) {
      NoScalar(e, c.pos, c.events);
      Stuck(e, c);
    } else {
      ScalarFails(e, c.pos, c.events);
      Turn(e, c);
    }
  }

  /** A step that delivers one event does what the recursive function does with that event. */
  lemma {:induction false} DeliverFollows(e: Env, c: Conf, b: Conf, x: Event)
    requires Live(c) && Peek(e.text, c.pos) != 0 && Step(e, c) == Deliver(e, b, x)
    requires b.state != Error && b.error == NoError
    ensures Follows(e, c, Emit(e, b.pos, b.events, x), b.state, b.stack)
  {
    hide Stops, Reaches, StackFits, Step;
    Turn(e, c);
  }

  /** What the table has for brackets and commas. */
  lemma PunctuationTable(s: State, b: byte)
    ensures ExpectsValue(s) && b == LCURLY ==> Predict(s, Tokenize(b)) == ObjectInitial
    ensures ExpectsValue(s) && b == LBRACKET ==> Predict(s, Tokenize(b)) == ArrayInitial
    ensures (s == ArrayInitial || s == Element) && b == RBRACKET ==> Predict(s, Tokenize(b)) == ArrayFinish
    ensures (s == ObjectInitial || s == MemberValue) && b == RCURLY ==> Predict(s, Tokenize(b)) == ObjectFinish
    ensures s == Element && b == COMMA ==> Predict(s, Tokenize(b)) == ElementDelimiter
    ensures s == MemberValue && b == COMMA ==> Predict(s, Tokenize(b)) == MemberDelimiter
    ensures s == MemberKey && b == COLON ==> Predict(s, Tokenize(b)) == KeyValueDelimiter
  {
  }

  /** A closing bracket ends its container on both sides. */
  lemma {:induction false} CloseFollows(e: Env, c: Conf, x: Event)
    requires Live(c) && c.stack != []
    requires c.state == ArrayInitial || c.state == Element || c.state == ObjectInitial || c.state == MemberValue
    requires var b := Peek(e.text, c.pos);
             if InArray(c.state) then b == RBRACKET && x == EndArray(Total(c)) else b == RCURLY && x == EndObject(Total(c))
    ensures Follows(e, c, Emit(e, c.pos + 1, c.events, x), Close(c).state, Close(c).stack)
  {
    hide StackFits, Follows, Predict, Tokenize, Step, Transit, Total;
    var dst := if InArray(c.state) then ArrayFinish else ObjectFinish;
    PunctuationTable(c.state, Peek(e.text, c.pos));
    CloseStep(e, c, dst);
    CloseFits(c);
    DeliverFollows(e, c, Close(c), x);
  }

  /** Behind a comma, at the next element or member: one more is counted. */
  function Counted(e: Env, c: Conf): Conf
    requires c.stack != []
  {
    var k := |c.stack| - 1;
    Conf(if c.state == Element then ElementDelimiter else MemberDelimiter, SkipSpace(e.text, c.pos + 1), c.events,
         c.stack[k := c.stack[k].(count := Inc(c.stack[k].count))], NoError)
  }

  /** A comma behind an element or a member counts it. */
  lemma {:induction false} CommaFollows(e: Env, c: Conf)
    requires Live(c) && c.stack != [] && (c.state == Element || c.state == MemberValue) && Peek(e.text, c.pos) == COMMA
    ensures Reaches(e, c, Counted(e, c).(pos := c.pos + 1))
  {
    hide StackFits, Predict, Tokenize, Step, Stops, Reaches;
    PunctuationTable(c.state, COMMA);
    CommaStep(e, c, if c.state == Element then ElementDelimiter else MemberDelimiter);
    Turn(e, c);
  }

  lemma {:induction false} MoreFollows(e: Env, c: Conf)
    requires Live(c) && c.stack != [] && (c.state == Element || c.state == MemberValue) && Peek(e.text, c.pos) == COMMA
    ensures var d := Counted(e, c);
            && Live(d) && Run(e, c) == Run(e, d) && Left(e.text, d.pos) < Left(e.text, c.pos)
            && Close(d).stack == Close(c).stack && Close(d).state == Close(c).state
  {
    hide StackFits, Run, Continue, SkipSpace, Reaches;
    CommaFollows(e, c);
    Onward(e, c, Counted(e, c).(pos := c.pos + 1));
  }

  // ---------- Values, elements and members ----------

  lemma {:induction false} ValueFollows(e: Env, c: Conf)
    requires Live(c) && ExpectsValue(c.state) && (c.state == ArrayInitial ==> Peek(e.text, c.pos) != RBRACKET)
    ensures Follows(e, c, ParseValue(e, c.pos, c.events), Behind(c.state), c.stack)
    decreases Left(e.text, c.pos), 1
  {
    if Peek(e.text, c.pos) == LCURLY || Peek(e.text, c.pos) == LBRACKET {
      ContainerFollows(e, c);
    } else {
      ScalarFollows(e, c);
    }
    hide Follows, ParseScalar, StackFits;
  }

  /** The first step into a container. */
  lemma {:induction false} OpenFollows(e: Env, c: Conf)
    requires Live(c) && ExpectsValue(c.state) && (Peek(e.text, c.pos) == LCURLY || Peek(e.text, c.pos) == LBRACKET)
    ensures var (x, s) := if Peek(e.text, c.pos) == LCURLY then (StartObject, ObjectInitial) else (StartArray, ArrayInitial);
            Follows(e, c, Emit(e, c.pos + 1, c.events, x), s, c.stack + [Frame(Saved(c.state), 0)])
  {
    hide StackFits, Follows, Predict, Tokenize, Step, Transit;
    var dst := if Peek(e.text, c.pos) == LCURLY then ObjectInitial else ArrayInitial;
    PunctuationTable(c.state, Peek(e.text, c.pos));
    OpenStep(e, c, dst);
    DeliverFollows(e, c, Open(c, dst), if dst == ObjectInitial then StartObject else StartArray);
  }

  lemma {:induction false} ContainerFollows(e: Env, c: Conf)
    requires Live(c) && ExpectsValue(c.state) && (Peek(e.text, c.pos) == LCURLY || Peek(e.text, c.pos) == LBRACKET)
    ensures Follows(e, c, ParseValue(e, c.pos, c.events), Behind(c.state), c.stack)
    decreases Left(e.text, c.pos), 0
  {
    hide Run, Continue, StackFits, ParseElements, ParseMembers;
    OpenFollows(e, c);
    var inObject := Peek(e.text, c.pos) == LCURLY;
    var o := Emit(e, c.pos + 1, c.events, if inObject then StartObject else StartArray);
    if o.Ok() {
      var stack := c.stack + [Frame(Saved(c.state), 0)];
      var d := Conf(if inObject then ObjectInitial else ArrayInitial, c.pos + 1, o.events, stack, NoError);
      Onward(e, c, d);
      InsideFollows(e, c, d.(pos := SkipSpace(e.text, d.pos)));
    }
  }

  /** The inside of a container that opened at `c`, whose first token is at `n`. */
  lemma {:induction false} InsideFollows(e: Env, c: Conf, n: Conf)
    requires Live(c) && Live(n) && Run(e, c) == Run(e, n) && ExpectsValue(c.state)
    requires IsOpening(Peek(e.text, c.pos))
    requires n.stack == c.stack + [Frame(Saved(c.state), 0)] && (n.state == ObjectInitial || n.state == ArrayInitial)
    ensures Follows(e, c,
                    if n.state == ObjectInitial then
                      if Peek(e.text, n.pos) == RCURLY then Emit(e, n.pos + 1, n.events, EndObject(0))
                      else ParseMembers(e, n.pos, n.events, 0)
                    else
                      if Peek(e.text, n.pos) == RBRACKET then Emit(e, n.pos + 1, n.events, EndArray(0))
                      else ParseElements(e, n.pos, n.events, 0),
                    Behind(c.state), c.stack)
    decreases Left(e.text, n.pos), 4
  {
    hide Run, Continue, StackFits, ParseElements, ParseMembers;
    assert n.stack[..|c.stack|] == c.stack;
    assert Close(n).stack == c.stack && Close(n).state == Behind(c.state);
    if n.state == ObjectInitial {
      if Peek(e.text, n.pos) == RCURLY {
        CloseFollows(e, n, EndObject(0));
      } else {
        MembersFollow(e, n);
      }
    } else {
      if Peek(e.text, n.pos) == RBRACKET {
        CloseFollows(e, n, EndArray(0));
      } else {
        ElementsFollow(e, n);
      }
    }
  }

  lemma {:induction false} ElementsFollow(e: Env, c: Conf)
    requires Live(c) && c.stack != [] && (c.state == ArrayInitial || c.state == ElementDelimiter)
    requires c.state == ArrayInitial ==> Peek(e.text, c.pos) != RBRACKET
    ensures Follows(e, c, ParseElements(e, c.pos, c.events, c.stack[|c.stack| - 1].count), Close(c).state, Close(c).stack)
    decreases Left(e.text, c.pos), 3
  {
    hide Follows, Close, StackFits, ParseValue, ParseElements, Grammar.BehindElement;
    ElementFollows(e, c);
    ElementUnfold(e, c.pos, c.events, c.stack[|c.stack| - 1].count);
  }

  lemma {:induction false} ElementEnds(e: Env, c: Conf, o: Outcome)
    requires Live(c) && c.stack != [] && (c.state == ArrayInitial || c.state == ElementDelimiter)
    requires o == ParseValue(e, c.pos, c.events) && Follows(e, c, o, Behind(c.state), c.stack)
    ensures o.Ok() ==> var v := Conf(Element, SkipSpace(e.text, o.pos), o.events, c.stack, NoError);
                       Live(v) && Run(e, c) == Run(e, v) && Left(e.text, v.pos) < Left(e.text, c.pos)
    ensures !o.Ok() ==> Follows(e, c, BehindElement(e, o, c.stack[|c.stack| - 1].count), Close(c).state, Close(c).stack)
  {
    hide Run, Continue, StackFits, ParseValue, ParseElements, SkipSpace, Close;
    if o.Ok() {
      Onward(e, c, Conf(Element, o.pos, o.events, c.stack, NoError));
    }
  }

  lemma SameClose(c: Conf, v: Conf)
    requires c.stack == v.stack != []
    ensures Close(c).stack == Close(v).stack && Close(c).state == Close(v).state
  {
  }

  /** A closing bracket, a comma with more elements, or an error behind the element that ends at `v`. */
  lemma {:induction false} BehindElementFollows(e: Env, c: Conf, o: Outcome, v: Conf)
    requires Live(c) && c.stack != [] && o.Ok() && v == Conf(Element, SkipSpace(e.text, o.pos), o.events, c.stack, NoError)
    requires Live(v) && Run(e, c) == Run(e, v) && Left(e.text, v.pos) < Left(e.text, c.pos) && c.state != Start
    ensures Follows(e, c, BehindElement(e, o, c.stack[|c.stack| - 1].count), Close(c).state, Close(c).stack)
    decreases Left(e.text, v.pos), 4
  {
    hide Run, Continue, StackFits, ParseElements, SkipSpace, Close, Live;
    SameClose(c, v);
    if Peek(e.text, v.pos) == RBRACKET {
      CloseFollows(e, v, EndArray(Total(v)));
    } else if Peek(e.text, v.pos) == COMMA {
      MoreFollows(e, v);
      ElementsFollow(e, Counted(e, v));
    } else {
      DelimiterStuck(e, v);
    }
  }

  /** The element that starts at `c`, and the elements behind it. */
  lemma {:induction false} ElementFollows(e: Env, c: Conf)
    requires Live(c) && c.stack != [] && (c.state == ArrayInitial || c.state == ElementDelimiter)
    requires c.state == ArrayInitial ==> Peek(e.text, c.pos) != RBRACKET
    ensures Follows(e, c, BehindElement(e, ParseValue(e, c.pos, c.events), c.stack[|c.stack| - 1].count), Close(c).state, Close(c).stack)
    decreases Left(e.text, c.pos), 2
  {
    hide Follows, StackFits, ParseValue, ParseElements, SkipSpace, Close, Run;
    var o := ParseValue(e, c.pos, c.events);
    ValueFollows(e, c);
    ElementEnds(e, c, o);
    if o.Ok() {
      BehindElementFollows(e, c, o, Conf(Element, SkipSpace(e.text, o.pos), o.events, c.stack, NoError));
    }
  }

  lemma {:induction false} MembersFollow(e: Env, c: Conf)
    requires Live(c) && c.stack != [] && (c.state == ObjectInitial || c.state == MemberDelimiter)
    requires c.state == ObjectInitial ==> Peek(e.text, c.pos) != RCURLY
    ensures Follows(e, c, ParseMembers(e, c.pos, c.events, c.stack[|c.stack| - 1].count), Close(c).state, Close(c).stack)
    decreases Left(e.text, c.pos), 3
  {
    hide Reaches, Stops, Run, Close, StackFits, ParseValue, ParseName, ParseMembers, Grammar.BehindMember;
    MemberUnfold(e, c.pos, c.events, c.stack[|c.stack| - 1].count);
    NameFollows(e, c);
    var k := ParseName(e, c.pos, c.events);
    if k.Ok() {
      MemberFollows(e, c, Conf(KeyValueDelimiter, k.pos, k.events, c.stack, NoError));
    }
  }

  /** The name of a member and the colon: the automaton fails, or expects the value. */
  lemma {:induction false} NameFollows(e: Env, c: Conf)
    requires Live(c) && c.stack != [] && (c.state == ObjectInitial || c.state == MemberDelimiter)
    requires c.state == ObjectInitial ==> Peek(e.text, c.pos) != RCURLY
    ensures var k := ParseName(e, c.pos, c.events);
            var n := Conf(KeyValueDelimiter, k.pos, k.events, c.stack, NoError);
            if k.Ok() then Live(n) && Run(e, c) == Run(e, n) && Left(e.text, n.pos) < Left(e.text, c.pos)
            else Stops(e, c, k.events, k.error) && !(k.error == ValueInvalid && NoValue(Peek(e.text, k.pos)))
  {
    hide Run, Continue, StackFits, ParseKey, SkipSpace, Predict, Tokenize, Live;
    if Peek(e.text, c.pos) != QUOTE {
      NameStuck(e, c);
    } else {
      var k := ParseKey(e, c.pos, c.events);
      KeyFollows(e, c);
      KeyFails(e, c.pos, c.events);
      if k.Ok() {
        var m := Conf(MemberKey, SkipSpace(e.text, k.pos), k.events, c.stack, NoError);
        KeyEnds(e, c, k, m);
        if Peek(e.text, m.pos) != COLON {
          ColonStuck(e, m);
        } else {
          ColonFollows(e, m);
        }
      }
    }
  }

  /** A name that is not there is never reported as a missing value. */
  lemma KeyFails(e: Env, p: nat, events: seq<Event>)
    ensures var k := ParseKey(e, p, events); !k.Ok() ==> k.pos == p || k.error == Termination
  {
    hide ScanString;
  }

  lemma {:induction false} NameStuck(e: Env, c: Conf)
    requires Live(c) && (c.state == ObjectInitial || c.state == MemberDelimiter)
    requires Peek(e.text, c.pos) != QUOTE && (c.state == ObjectInitial ==> Peek(e.text, c.pos) != RCURLY)
    ensures Stops(e, c, c.events, ObjectMissName)
  {
    hide Stops, StackFits;
    Stuck(e, c);
  }

  lemma {:induction false} ColonStuck(e: Env, m: Conf)
    requires Live(m) && m.state == MemberKey && Peek(e.text, m.pos) != COLON
    ensures Stops(e, m, m.events, ObjectMissColon)
  {
    hide Stops, StackFits;
    Stuck(e, m);
  }

  /** Neither a comma nor the closing bracket of the container behind an element or a member. */
  lemma {:induction false} DelimiterStuck(e: Env, v: Conf)
    requires Live(v) && (v.state == Element || v.state == MemberValue)
    requires var b := Peek(e.text, v.pos); b != COMMA && b != (if v.state == Element then RBRACKET else RCURLY)
    ensures Stops(e, v, v.events, if v.state == Element then ArrayMissCommaOrSquareBracket else ObjectMissCommaOrCurlyBracket)
  {
    hide Stops, StackFits;
    Stuck(e, v);
  }

  lemma {:induction false} KeyEnds(e: Env, c: Conf, k: Outcome, m: Conf)
    requires Live(c) && k.Ok() && Follows(e, c, k, MemberKey, c.stack) && k == ParseKey(e, c.pos, c.events)
    requires m == Conf(MemberKey, SkipSpace(e.text, k.pos), k.events, c.stack, NoError)
    ensures Live(m) && Run(e, c) == Run(e, m) && Left(e.text, m.pos) < Left(e.text, c.pos)
  {
    hide Run, Continue, StackFits, ParseKey, SkipSpace, Live, Reaches;
    Onward(e, c, Conf(MemberKey, k.pos, k.events, c.stack, NoError));
  }

  lemma {:induction false} KeyFollows(e: Env, c: Conf)
    requires Live(c) && (c.state == ObjectInitial || c.state == MemberDelimiter) && Peek(e.text, c.pos) == QUOTE
    ensures Follows(e, c, ParseKey(e, c.pos, c.events), MemberKey, c.stack)
  {
    Turn(e, c);
    hide Stops, Reaches, StackFits, ParseKey;
  }

  lemma {:induction false} ColonFollows(e: Env, c: Conf)
    requires Live(c) && c.state == MemberKey && Peek(e.text, c.pos) == COLON
    ensures var n := Conf(KeyValueDelimiter, SkipSpace(e.text, c.pos + 1), c.events, c.stack, NoError);
            Live(n) && Run(e, c) == Run(e, n) && Left(e.text, n.pos) < Left(e.text, c.pos)
  {
    hide Stops, Reaches, StackFits, SkipSpace, Predict, Tokenize, Run, Continue;
    PunctuationTable(MemberKey, COLON);
    Turn(e, c);
    Onward(e, c, Conf(KeyValueDelimiter, c.pos + 1, c.events, c.stack, NoError));
  }

  /** The value of a member that starts at `d`, and the members behind it. */
  lemma {:induction false} MemberFollows(e: Env, c: Conf, d: Conf)
    requires Live(d) && d.stack != [] && d.state == KeyValueDelimiter
    requires Live(c) && c.stack == d.stack && Run(e, c) == Run(e, d) && Left(e.text, d.pos) < Left(e.text, c.pos) && c.state != Start
    ensures Follows(e, c, BehindMember(e, ParseValue(e, d.pos, d.events), c.stack[|c.stack| - 1].count), Close(c).state, Close(c).stack)
    decreases Left(e.text, d.pos), 3
  {
    hide Run, Continue, StackFits, ParseValue, ParseMembers, SkipSpace, Predict, Tokenize;
    var o := ParseValue(e, d.pos, d.events);
    ValueFollows(e, d);
    if o.Ok() {
      var k := |c.stack| - 1;
      Onward(e, d, Conf(MemberValue, o.pos, o.events, c.stack, NoError));
      var v := Conf(MemberValue, SkipSpace(e.text, o.pos), o.events, c.stack, NoError);
      if Peek(e.text, v.pos) == RCURLY {
        CloseFollows(e, v, EndObject(Total(v)));
      } else if Peek(e.text, v.pos) == COMMA {
        MoreFollows(e, v);
        MembersFollow(e, Counted(e, v));
      } else {
        DelimiterStuck(e, v);
      }
    }
  }

  /**
   * For every text, every flag and every handler, whatever it answers, the two parsers give the same verdict, deliver
   * the same events in the same order, leave the cursor in the same place on success, and report the same code on
   * failure, but for a value that is not there.
   */
  lemma {:induction false} ParsersAgree(e: Env)
    ensures Parse(e).Ok() <==> IterativeParse(e).Ok()
    ensures Parse(e).events == IterativeParse(e).events
    ensures Parse(e).Ok() ==> Parse(e).pos == IterativeParse(e).pos
    ensures IterativeParse(e).error == CodeFor(e, !IsOpening(Peek(e.text, SkipSpace(e.text, 0))), Parse(e))
  {
    hide ParseValue;
    var c := InitialConf(e);
    if Peek(e.text, c.pos) != 0 {
      var o := ParseValue(e, c.pos, []);
      ValueFollows(e, c);
      if o.Ok() && !e.stopWhenDone {
        RootDone(e, Conf(Finish, SkipSpace(e.text, o.pos), o.events, [], NoError));
      }
    }
  }

  /** Behind a finished root only the end of the text is accepted. */
  lemma {:induction false} RootDone(e: Env, c: Conf)
    requires Live(c) && c.state == Finish
    ensures Run(e, c).Ok() <==> Peek(e.text, c.pos) == 0
    ensures Run(e, c).events == c.events
    ensures Run(e, c).Ok() ==> Run(e, c).pos == c.pos
    ensures !Run(e, c).Ok() ==> Run(e, c).error == DocumentRootNotSingular
  {
    if Peek(e.text, c.pos) != 0 {
      Turn(e, c);
    }
  }
}
