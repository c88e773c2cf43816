/** Whitespace between tokens does not matter: a run of it more leaves the verdict and the events as they are. */
module Respacing {
  import opened Stream
  import opened Events
  import opened Grammar
  import opened Automaton
  import opened Equivalence
  import opened Spelling
  import opened Errors
  import Utf8

  // ---------- The same bytes at another place ----------

  /** A part of text `t`, from `lo` on, up to `hi` unless `all` of it is meant, and where it is in `u`: `k` bytes further on. */
  datatype Window = Window(t: Text, u: Text, k: nat, lo: nat, hi: nat, all: bool) {
    predicate Covers(p: nat, q: nat) { lo <= p && (all || q <= hi) }

    ghost predicate Shown() { forall i: nat :: Covers(i, i + 1) ==> Peek(u, i + k) == Peek(t, i) }
  }

  lemma ByteShown(w: Window, p: nat)
    requires w.Shown() && w.Covers(p, p + 1)
    ensures Peek(w.u, p + w.k) == Peek(w.t, p)
  {
  }

  lemma BytesShown(w: Window, p: nat, n: nat)
    requires w.Shown() && w.Covers(p, p + n) && p + n <= |w.t|
    requires p + w.k + n <= |w.u|
    ensures w.t[p..p + n] == w.u[p + w.k..p + w.k + n]
  {
    forall i: nat | p <= i < p + n ensures w.u[i + w.k] == w.t[i] {
      ByteShown(w, i);
    }
  }

  lemma CharacterShown(w: Window, p: nat)
    requires w.Shown() && w.Covers(p, p + Utf8.CharLen(w.t, p)) && (w.all || Utf8.CharLen(w.t, p) > 0)
    ensures Utf8.CharLen(w.u, p + w.k) == Utf8.CharLen(w.t, p)
  {
    var n := Utf8.CharLen(w.t, p);
    ByteShown(w, p);
    if w.all || n > 1 { ByteShown(w, p + 1); }
    if w.all || n > 2 { ByteShown(w, p + 2); }
    if w.all || n > 3 { ByteShown(w, p + 3); }
    hide Peek, Window.Shown;
  }

  lemma HexShown(w: Window, p: nat)
    requires w.Shown() && w.Covers(p, p + 4)
    ensures IsHex4(w.u, p + w.k) <==> IsHex4(w.t, p)
    ensures IsHex4(w.t, p) ==> Hex4(w.u, p + w.k) == Hex4(w.t, p)
  {
    ByteShown(w, p);
    ByteShown(w, p + 1);
    ByteShown(w, p + 2);
    ByteShown(w, p + 3);
  }

  lemma EscapeShown(w: Window, p: nat)
    requires w.Shown() && w.lo <= p && (w.all || (ScanUnicode(w.t, p).Escape? && ScanUnicode(w.t, p).next <= w.hi))
    ensures match ScanUnicode(w.t, p)
            case Escape(next, cp) => ScanUnicode(w.u, p + w.k) == Escape(next + w.k, cp)
            case EscapeError(code) => ScanUnicode(w.u, p + w.k) == EscapeError(code)
  {
    hide Peek, IsHex4, Hex4, Window.Shown;
    HexShown(w, p);
    if IsHex4(w.t, p) && 0xD800 <= Hex4(w.t, p) <= 0xDBFF {
      HexShown(w, p + 6);
      ByteShown(w, p + 4);
      ByteShown(w, p + 5);
    }
  }

  function MovedString(s: StringScan, k: nat): StringScan {
    match s
    case Str(next, bytes) => Str(next + k, bytes)
    case StrError(code) => StrError(code)
  }

  /** A string that is scanned inside the window is the same string in the other text, and all other answers are the same too. */
  lemma {:induction false} StringShown(w: Window, validate: bool, p: nat, acc: seq<byte>)
    requires w.Shown() && w.lo <= p
    requires w.all || (ScanString(w.t, validate, p, acc).Str? && ScanString(w.t, validate, p, acc).next <= w.hi)
    ensures ScanString(w.u, validate, p + w.k, acc) == MovedString(ScanString(w.t, validate, p, acc), w.k)
    decreases Left(w.t, p)
  {
    hide ScanString, ScanUnicode, Unescape, Utf8.CharLen, Utf8.Encode, Window.Shown, Peek;
    var c := Peek(w.t, p);
    ScanOnce(w.t, validate, p, acc);
    ScanOnce(w.u, validate, p + w.k, acc);
    ByteShown(w, p);
    if c == BACKSLASH {
      var x := Peek(w.t, p + 1);
      ByteShown(w, p + 1);
      if Unescape(x) != 0 {
        StringShown(w, validate, p + 2, acc + [Unescape(x)]);
      } else if x == LOWER_U {
        EscapeShown(w, p + 2);
        match ScanUnicode(w.t, p + 2) {
          case Escape(next, cp) =>
            StringShown(w, validate, next, acc + Utf8.Encode(cp));
          case EscapeError(_) =>
        }
      }
    } else if c >= 0x20 && c != QUOTE {
      if !validate {
        StringShown(w, validate, p + 1, acc + [c]);
      } else {
        CharacterShown(w, p);
        var n := Utf8.CharLen(w.t, p);
        if n > 0 {
          BytesShown(w, p, n);
          StringShown(w, validate, p + n, acc + w.t[p..p + n]);
        }
      }
    }
  }

  // ---------- Numbers, words, scalars ----------

  lemma {:induction false} DigitsShown(w: Window, p: nat)
    requires w.Shown() && w.Covers(p, DigitsEnd(w.t, p)) && !IsDigit(Peek(w.u, DigitsEnd(w.t, p) + w.k))
    ensures DigitsEnd(w.u, p + w.k) == DigitsEnd(w.t, p) + w.k
    decreases DigitsEnd(w.t, p) - p
  {
    hide Window.Shown;
    if IsDigit(Peek(w.t, p)) {
      ByteShown(w, p);
      DigitsShown(w, p + 1);
    }
  }

  lemma WordShown(w: Window, p: nat, word: seq<byte>)
    requires w.Shown() && w.lo <= p && (w.all || (At(w.t, p, word) && p + |word| <= w.hi)) && 0 !in word && word != []
    ensures At(w.u, p + w.k, word) <==> At(w.t, p, word)
  {
    if At(w.t, p, word) {
      forall i: nat | i < |word| ensures Peek(w.u, p + w.k + i) == word[i] {
        AtByte(w.t, p, word, i);
        ByteShown(w, p + i);
      }
      WordByBytes(w.u, p + w.k, word);
    }
    if At(w.u, p + w.k, word) {
      forall i: nat | i < |word| && w.all ensures Peek(w.t, p + i) == word[i] {
        AtByte(w.u, p + w.k, word, i);
        ByteShown(w, p + i);
      }
      if w.all {
        WordByBytes(w.t, p, word);
      }
    }
  }

  lemma WordByBytes(t: Text, p: nat, word: seq<byte>)
    requires 0 !in word && word != [] && forall i: nat :: i < |word| ==> Peek(t, p + i) == word[i]
    ensures At(t, p, word)
  {
    var last := |word| - 1;
    assert Peek(t, p + last) == word[last];
    assert word[last] in word;
    forall j: nat | p <= j < p + |word| ensures t[j] == word[j - p] {
      assert Peek(t, p + (j - p)) == word[j - p];
    }
    assert t[p..p + |word|] == word;
  }

  function Moved(s: ScalarScan, k: nat): ScalarScan {
    match s
    case Scalar(next, x) => Scalar(next + k, x)
    case ScalarError(code) => ScalarError(code)
  }

  /** A scan stays inside the window, when the window has an end. */
  predicate Inside(w: Window, s: ScalarScan) { w.all || (s.Scalar? && s.next <= w.hi) }

  /** Where the integer digits of the number at `p` end. */
  function IntegerEnd(t: Text, p: nat): nat {
    var q := if Peek(t, p) == MINUS then p + 1 else p;
    if Peek(t, q) == ZERO then q + 1 else DigitsEnd(t, q)
  }

  /** A double ends behind its integer digits, and behind the point or the letter that follows them. */
  ghost predicate EndsBehindDigits(e: Env) {
    forall p: nat :: e.double(e.text, p).DoubleAt? ==>
      var r := IntegerEnd(e.text, p);
      p + 1 + e.double(e.text, p).extra >= if StartsFloat(Peek(e.text, r)) then r + 1 else r
  }

  /** Two environments that differ in the text, of which the window shows a part; a number there is the same number in both. */
  ghost predicate Alike(e: Env, f: Env, w: Window) {
    && w.t == e.text && w.u == f.text && w.Shown()
    && f.handler == e.handler && f.validateEncoding == e.validateEncoding && f.stopWhenDone == e.stopWhenDone
    && (!w.all ==> EndsBehindDigits(e) && !IsDigit(Peek(w.u, w.hi + w.k)) && !StartsFloat(Peek(w.u, w.hi + w.k)))
    && forall p: nat :: w.lo <= p && Inside(w, ScanDouble(e, p)) ==> f.double(f.text, p + w.k) == e.double(e.text, p)
  }

  /** A number whose first digit is at `q`. */
  predicate NumberAt(t: Text, p: nat, q: nat) { q == (if Peek(t, p) == MINUS then p + 1 else p) && IsDigit(Peek(t, q)) }

  /** The scan of a number does not end before its integer digits do. */
  lemma DigitsInside(e: Env, p: nat, q: nat)
    requires NumberAt(e.text, p, q) && EndsBehindDigits(e) && ScanNumber(e, p).Scalar?
    ensures var r := IntegerEnd(e.text, p); q < r <= ScanNumber(e, p).next
    ensures var r := IntegerEnd(e.text, p); r == ScanNumber(e, p).next ==> !StartsFloat(Peek(e.text, r))
  {
    hide Decimal, DigitsEnd, StartsFloat;
    assert IsDigit(Peek(e.text, q)) ==> DigitsEnd(e.text, q) > q by { DigitsGo(e.text, q); }
  }

  lemma DigitsGo(t: Text, q: nat)
    requires IsDigit(Peek(t, q))
    ensures DigitsEnd(t, q) > q
  {
  }

  lemma IntegerEndShown(e: Env, f: Env, w: Window, p: nat, q: nat)
    requires Alike(e, f, w) && w.lo <= p && Inside(w, ScanNumber(e, p)) && NumberAt(e.text, p, q)
    ensures NumberAt(f.text, p + w.k, q + w.k)
    ensures var r := IntegerEnd(e.text, p);
            && q < r <= |e.text| && r + w.k <= |f.text| && w.Covers(q, r)
            && IntegerEnd(f.text, p + w.k) == r + w.k
            && StartsFloat(Peek(f.text, r + w.k)) == StartsFloat(Peek(e.text, r))
  {
    hide Decimal, DigitsEnd, Window.Shown, ScanNumber, StartsFloat;
    var r := IntegerEnd(e.text, p);
    DigitsGo(e.text, q);
    if !w.all {
      DigitsInside(e, p, q);
    }
    ByteShown(w, p);
    ByteShown(w, q);
    ByteShown(w, r - 1);
    if w.all || r < w.hi {
      ByteShown(w, r);
    }
    if Peek(e.text, q) != ZERO {
      DigitsShown(w, q);
    }
  }

  lemma NumberBy(e: Env, p: nat, q: nat)
    requires NumberAt(e.text, p, q) && IntegerEnd(e.text, p) <= |e.text|
    ensures var r := IntegerEnd(e.text, p);
            var v := Decimal(e.text[q..r]);
            ScanNumber(e, p) == if v > IntegerLimit(q != p) || StartsFloat(Peek(e.text, r)) then ScanDouble(e, p) else Scalar(r, IntegerEvent(q != p, v))
  {
    hide Decimal, DigitsEnd, StartsFloat, ScanDouble, IntegerEvent;
  }

  lemma NumberShown(e: Env, f: Env, w: Window, p: nat)
    requires Alike(e, f, w) && w.lo <= p && Inside(w, ScanNumber(e, p))
    ensures ScanNumber(f, p + w.k) == Moved(ScanNumber(e, p), w.k)
  {
    hide ScanNumber, Decimal, DigitsEnd, StartsFloat, IntegerEnd, IntegerEvent, IntegerLimit, Window.Shown, EndsBehindDigits, Peek;
    var q := if Peek(e.text, p) == MINUS then p + 1 else p;
    if IsDigit(Peek(e.text, q)) {
      IntegerEndShown(e, f, w, p, q);
      var r := IntegerEnd(e.text, p);
      BytesShown(w, q, r - q);
      assert e.text[q..r] == f.text[q + w.k..r + w.k];
      NumberBy(e, p, q);
      NumberBy(f, p + w.k, q + w.k);
    } else {
      NoDigits(e, p);
      ByteShown(w, p);
      ByteShown(w, q);
      NoDigits(f, p + w.k);
    }
  }

  lemma ScalarShown(e: Env, f: Env, w: Window, p: nat)
    requires Alike(e, f, w) && w.lo <= p && Inside(w, ScanScalar(e, p))
    ensures ScanScalar(f, p + w.k) == Moved(ScanScalar(e, p), w.k)
    ensures Peek(f.text, p + w.k) == Peek(e.text, p)
  {
    hide ScanString, ScanNumber, Window.Shown, At, EndsBehindDigits;
    ByteShown(w, p);
    match Peek(e.text, p) {
      case 0x6E => WordShown(w, p, NULL_WORD);
      case 0x74 => WordShown(w, p, TRUE_WORD);
      case 0x66 => WordShown(w, p, FALSE_WORD);
      case 0x22 => StringShown(w, e.validateEncoding, p + 1, []);
      case _ => NumberShown(e, f, w, p);
    }
  }

  // ---------- Tokens ----------

  predicate IsPunctuation(c: byte) { c == 0x2C || c == 0x3A || c == 0x5B || c == 0x5D || c == 0x7B || c == 0x7D }

  /** Where the token at `p` ends: `p` itself when there is none. */
  function TokenEnd(e: Env, p: nat): (q: nat)
    ensures q > p ==> p < |e.text|
  {
    if IsPunctuation(Peek(e.text, p)) then p + 1
    else match ScanScalar(e, p)
         case Scalar(next, _) => next
         case ScalarError(_) => p
  }

  /** The text from `p` on has `g` between two tokens, in front of all of them or behind them. */
  predicate Gap(e: Env, p: nat, g: nat)
    decreases Left(e.text, p)
  {
    var q := SkipSpace(e.text, p);
    p <= g <= q || (q < TokenEnd(e, q) <= g && Gap(e, TokenEnd(e, q), g))
  }

  // ---------- Steps ----------

  function Later(c: Conf, k: nat): Conf { c.(pos := c.pos + k) }

  /** A step takes one token. */
  lemma StepTakes(e: Env, c: Conf)
    requires Live(c) && Peek(e.text, c.pos) != 0 && Step(e, c).state != Error
    ensures Step(e, c).pos == TokenEnd(e, c.pos)
  {
    hide ScanString, ScanNumber, StackFits;
  }

  /** The same outcome, `k` bytes later. */
  predicate SameOutcome(o: Outcome, o': Outcome, k: nat) {
    o'.events == o.events && o'.error == o.error && (o.Ok() ==> o'.pos == o.pos + k)
  }

  lemma ParseScalarShown(e: Env, f: Env, k: nat, p: nat, events: seq<Event>)
    requires f.handler == e.handler && ScanScalar(f, p + k) == Moved(ScanScalar(e, p), k)
    ensures SameOutcome(ParseScalar(e, p, events), ParseScalar(f, p + k, events), k)
  {
    hide ScanScalar;
  }

  lemma ParseKeyShown(e: Env, f: Env, k: nat, p: nat, events: seq<Event>)
    requires f.handler == e.handler && ScanScalar(f, p + k) == Moved(ScanScalar(e, p), k)
    requires Peek(e.text, p) == QUOTE && Peek(f.text, p + k) == QUOTE
    ensures SameOutcome(ParseKey(e, p, events), ParseKey(f, p + k, events), k)
  {
    hide ScanString;
  }

  /** Which tokens lead to the states whose move scans a scalar or a name. */
  lemma ScanningStates(s: State, c: byte)
    ensures Predict(s, Tokenize(c)) in {MemberValue, Element, SingleValue, MemberKey} ==> !IsPunctuation(c)
    ensures Predict(s, Tokenize(c)) == MemberKey ==> c == QUOTE
    ensures Predict(s, Tokenize(c)) !in {Start, Finish}
  {
  }

  /** The same configuration, `k` bytes later. */
  predicate SameConf(c: Conf, c': Conf, k: nat) {
    c'.state == c.state && c'.events == c.events && c'.stack == c.stack && c'.error == c.error && (c.state != Error ==> c'.pos == c.pos + k)
  }

  ghost predicate ScansAlike(e: Env, f: Env, k: nat, c: Conf, dst: State) {
    && f.handler == e.handler
    && (dst == MemberValue || dst == Element || dst == SingleValue ==>
          SameOutcome(ParseScalar(e, c.pos, c.events), ParseScalar(f, c.pos + k, c.events), k))
    && (dst == MemberKey ==> SameOutcome(ParseKey(e, c.pos, c.events), ParseKey(f, c.pos + k, c.events), k))
  }

  /** The move that opens a container, the one that closes it, and the others. */
  lemma SameOpen(e: Env, f: Env, k: nat, c: Conf, dst: State)
    requires Live(c) && Peek(f.text, c.pos + k) == Peek(e.text, c.pos)
    requires dst == Predict(c.state, Tokenize(Peek(e.text, c.pos))) && ScansAlike(e, f, k, c, dst)
    requires dst == ObjectInitial || dst == ArrayInitial
    ensures SameConf(Step(e, c), Step(f, Later(c, k)), k)
  {
    hide Predict, Tokenize, StackFits, Peek, Open, Deliver, Step, Transit, SameConf, ParseScalar, ParseKey;
    OpenStep(e, c, dst);
    OpenStep(f, Later(c, k), dst);
    OpenLater(c, k, dst);
    DeliverLater(e, f, k, Open(c, dst), if dst == ObjectInitial then StartObject else StartArray);
  }

  lemma SameClosing(e: Env, f: Env, k: nat, c: Conf, dst: State)
    requires Live(c) && Peek(f.text, c.pos + k) == Peek(e.text, c.pos)
    requires dst == Predict(c.state, Tokenize(Peek(e.text, c.pos))) && ScansAlike(e, f, k, c, dst)
    requires c.stack != [] && (dst == ObjectFinish || dst == ArrayFinish)
    ensures SameConf(Step(e, c), Step(f, Later(c, k)), k)
  {
    hide Predict, Tokenize, StackFits, Peek, Close, Total, Deliver, Step, Transit, SameConf, ParseScalar, ParseKey;
    CloseStep(e, c, dst);
    CloseStep(f, Later(c, k), dst);
    CloseLater(c, k);
    DeliverLater(e, f, k, Close(c), if dst == ObjectFinish then EndObject(Total(c)) else EndArray(Total(c)));
  }

  lemma SameMove(e: Env, f: Env, k: nat, c: Conf, dst: State)
    requires Live(c) && Peek(f.text, c.pos + k) == Peek(e.text, c.pos)
    requires dst == Predict(c.state, Tokenize(Peek(e.text, c.pos))) && ScansAlike(e, f, k, c, dst)
    requires dst != ObjectInitial && dst != ArrayInitial && dst != ObjectFinish && dst != ArrayFinish
    ensures SameConf(Step(e, c), Step(f, Later(c, k)), k)
  {
    hide Predict, Tokenize, StackFits, Peek, Close, Open, Total, Deliver, ParseScalar, ParseKey;
    ScanningStates(c.state, Peek(e.text, c.pos));
  }

  lemma SameStep(e: Env, f: Env, k: nat, c: Conf, dst: State)
    requires Live(c) && Peek(f.text, c.pos + k) == Peek(e.text, c.pos)
    requires dst == Predict(c.state, Tokenize(Peek(e.text, c.pos))) && ScansAlike(e, f, k, c, dst)
    ensures SameConf(Step(e, c), Step(f, Later(c, k)), k)
  {
    hide Predict, Tokenize, StackFits, Peek, Step, SameConf, ScansAlike;
    if dst == ObjectInitial || dst == ArrayInitial {
      SameOpen(e, f, k, c, dst);
    } else if dst == ObjectFinish || dst == ArrayFinish {
      PredictSources(c.state, Tokenize(Peek(e.text, c.pos)));
      StackFitsShape(c.stack, c.state);
      SameClosing(e, f, k, c, dst);
    } else {
      SameMove(e, f, k, c, dst);
    }
  }

  lemma DeliverLater(e: Env, f: Env, k: nat, b: Conf, x: Event)
    requires f.handler == e.handler
    ensures SameConf(Deliver(e, b, x), Deliver(f, Later(b, k), x), k)
  {
  }

  lemma OpenLater(c: Conf, k: nat, dst: State)
    ensures Open(Later(c, k), dst) == Later(Open(c, dst), k)
  {
    hide Saved;
  }

  lemma CloseLater(c: Conf, k: nat)
    requires c.stack != []
    ensures Close(Later(c, k)) == Later(Close(c), k) && Total(Later(c, k)) == Total(c)
  {
  }

  /** A step on a token that the window shows is the same step. */
  lemma StepShown(e: Env, f: Env, w: Window, c: Conf)
    requires Alike(e, f, w) && Live(c) && w.Covers(c.pos, c.pos + 1)
    requires IsPunctuation(Peek(e.text, c.pos)) || Inside(w, ScanScalar(e, c.pos))
    ensures Peek(f.text, c.pos + w.k) == Peek(e.text, c.pos)
    ensures SameConf(Step(e, c), Step(f, Later(c, w.k)), w.k)
  {
    hide ScanScalar, ParseScalar, ParseKey, StackFits, Window.Shown, Peek, EndsBehindDigits, Predict, Tokenize, IsPunctuation, Step;
    ByteShown(w, c.pos);
    ScanningStates(c.state, Peek(e.text, c.pos));
    if !IsPunctuation(Peek(e.text, c.pos)) {
      ScalarShown(e, f, w, c.pos);
      ParseScalarShown(e, f, w.k, c.pos, c.events);
      if Peek(e.text, c.pos) == QUOTE {
        ParseKeyShown(e, f, w.k, c.pos, c.events);
      }
    }
    SameStep(e, f, w.k, c, Predict(c.state, Tokenize(Peek(e.text, c.pos))));
  }

  // ---------- Whole texts ----------

  /** The same events and the same verdict, with the same code. */
  predicate SameAnswer(a: Outcome, b: Outcome) { a.events == b.events && a.error == b.error }

  lemma {:induction false} SkipShown(w: Window, p: nat)
    requires w.Shown() && w.Covers(p, SkipSpace(w.t, p) + 1)
    ensures SkipSpace(w.u, p + w.k) == SkipSpace(w.t, p) + w.k
    decreases SkipSpace(w.t, p) - p
  {
    hide Window.Shown;
    ByteShown(w, p);
    if IsSpace(Peek(w.t, p)) {
      SkipShown(w, p + 1);
    }
  }

  /** One turn of the loop: a step, and unless it is the last one the whitespace behind it. */
  lemma RunOnce(e: Env, c: Conf)
    requires Live(c) && Peek(e.text, c.pos) != 0
    ensures var d := Step(e, c);
            && (d.state == Error ==> Run(e, c) == Outcome(d.pos, d.events, HandleError(c.state, d.error)))
            && (d.state != Error ==> Live(d) && d.pos > c.pos && Left(e.text, SkipSpace(e.text, d.pos)) < Left(e.text, c.pos))
            && (d.state != Error && e.stopWhenDone && d.state == Finish ==> Run(e, c) == Outcome(d.pos, d.events, NoError))
            && (d.state != Error && !(e.stopWhenDone && d.state == Finish) ==> Run(e, c) == Run(e, d.(pos := SkipSpace(e.text, d.pos))))
  {
    StepUnfold(e, c);
    StepConsumes(e, c);
    hide Run, StackFits, Predict, Tokenize, Transit, HandleError;
  }

  lemma RunEnd(e: Env, c: Conf)
    requires Live(c) && Peek(e.text, c.pos) == 0
    ensures Run(e, c) == Outcome(c.pos, c.events, if c.state == Finish then NoError else HandleError(c.state, NoError))
  {
  }

  /** Where the window shows all that is left, the rest of the run is the same. */
  lemma {:induction false} RestShown(e: Env, f: Env, w: Window, c: Conf)
    requires Alike(e, f, w) && w.all && w.lo <= c.pos && Live(c)
    ensures SameAnswer(Run(f, Later(c, w.k)), Run(e, c))
    decreases Left(e.text, c.pos)
  {
    hide Run, Window.Shown, EndsBehindDigits, StackFits, Step, HandleError, SkipSpace, ScanScalar, Peek, Left;
    ByteShown(w, c.pos);
    if Peek(e.text, c.pos) != 0 {
      StepShown(e, f, w, c);
      RunOnce(e, c);
      RunOnce(f, Later(c, w.k));
      var d := Step(e, c);
      if d.state != Error && !(e.stopWhenDone && d.state == Finish) {
        SkipShown(w, d.pos);
        RestShown(e, f, w, d.(pos := SkipSpace(e.text, d.pos)));
      }
    } else {
      RunEnd(e, c);
      RunEnd(f, Later(c, w.k));
    }
  }

  // ---------- A run of blanks more ----------

  /** The text of `e` with the blanks of `w` at `g`; the doubles in front of `g` and behind it are the same. */
  ghost predicate Respaced(e: Env, f: Env, g: nat, w: seq<byte>) {
    && g <= |e.text| && w != [] && Blanks(w) && f.text == e.text[..g] + w + e.text[g..]
    && f.handler == e.handler && f.validateEncoding == e.validateEncoding && f.stopWhenDone == e.stopWhenDone
    && EndsBehindDigits(e)
    && DoublesInFront(e, f, g) && DoublesBehind(e, f, g, |w|)
  }

  ghost predicate DoublesInFront(e: Env, f: Env, g: nat) {
    forall p: nat :: ScanDouble(e, p).Scalar? && ScanDouble(e, p).next <= g ==> f.double(f.text, p) == e.double(e.text, p)
  }

  ghost predicate DoublesBehind(e: Env, f: Env, g: nat, k: nat) {
    forall p: nat :: p >= g ==> f.double(f.text, p + k) == e.double(e.text, p)
  }

  function InFront(e: Env, f: Env, g: nat): Window { Window(e.text, f.text, 0, 0, g, false) }

  function BehindGap(e: Env, f: Env, g: nat, w: seq<byte>): Window { Window(e.text, f.text, |w|, g, g, true) }

  lemma SpacedBytes(t: Text, u: Text, g: nat, w: seq<byte>)
    requires g <= |t| && u == t[..g] + w + t[g..]
    ensures forall i: nat :: i < g ==> Peek(u, i) == Peek(t, i)
    ensures forall i: nat :: i >= g ==> Peek(u, i + |w|) == Peek(t, i)
    ensures At(u, g, w)
  {
    assert u[g..g + |w|] == w;
  }

  lemma WindowsShown(e: Env, f: Env, g: nat, w: seq<byte>)
    requires g <= |e.text| && f.text == e.text[..g] + w + e.text[g..]
    ensures InFront(e, f, g).Shown() && BehindGap(e, f, g, w).Shown()
  {
    SpacedBytes(e.text, f.text, g, w);
    hide Peek;
  }

  lemma FrontShown(e: Env, f: Env, g: nat, w: seq<byte>)
    requires Respaced(e, f, g, w)
    ensures InFront(e, f, g).Shown() && Alike(e, f, InFront(e, f, g))
  {
    hide Window.Shown, EndsBehindDigits, DoublesBehind;
    WindowsShown(e, f, g, w);
    SpacedBytes(e.text, f.text, g, w);
    AtByte(f.text, g, w, 0);
    assert IsBlank(w[0]);
  }

  lemma BehindShown(e: Env, f: Env, g: nat, w: seq<byte>)
    requires Respaced(e, f, g, w)
    ensures BehindGap(e, f, g, w).Shown() && Alike(e, f, BehindGap(e, f, g, w))
  {
    hide Window.Shown, EndsBehindDigits, Blanks, DoublesInFront, ScanDouble;
    WindowsShown(e, f, g, w);
  }

  /** At the gap itself. */
  lemma SkipGap(e: Env, f: Env, g: nat, w: seq<byte>, p: nat)
    requires Respaced(e, f, g, w) && p <= g <= SkipSpace(e.text, p)
    ensures SkipSpace(f.text, p) == SkipSpace(e.text, p) + |w|
  {
    BehindShown(e, f, g, w);
    SpacedBytes(e.text, f.text, g, w);
    assert Blanks(w);
    hide Respaced, Alike, SkipSpace, EndsBehindDigits, At, Peek, Window.Shown;
    SkipPart(e.text, p, g);
    forall i | p <= i < g ensures IsSpace(Peek(f.text, i)) {
      assert IsSpace(Peek(e.text, i));
    }
    SkipPart(f.text, p, g);
    RunSkipped(f.text, g, w);
    SkipShown(BehindGap(e, f, g, w), g);
  }

  lemma {:induction false} SkipPart(t: Text, p: nat, g: nat)
    requires p <= g && forall i :: p <= i < g ==> IsSpace(Peek(t, i))
    ensures SkipSpace(t, p) == SkipSpace(t, g)
    decreases g - p
  {
    if p < g {
      assert IsSpace(Peek(t, p));
      SkipPart(t, p + 1, g);
    }
  }

  /** One turn of the loop in front of the gap. */
  lemma TurnShown(e: Env, f: Env, g: nat, w: seq<byte>, c: Conf)
    requires Respaced(e, f, g, w) && Live(c) && c.pos < TokenEnd(e, c.pos) <= g
    ensures Step(f, c).state == Step(e, c).state
    ensures if Step(e, c).state == Error || (e.stopWhenDone && Step(e, c).state == Finish) then SameAnswer(Run(f, c), Run(e, c))
            else
              var d := Step(e, c);
              && Live(d) && d.pos == TokenEnd(e, c.pos) > c.pos && c.pos < |e.text|
              && Run(e, c) == Run(e, d.(pos := SkipSpace(e.text, d.pos)))
              && Run(f, c) == Run(f, d.(pos := SkipSpace(f.text, d.pos)))
  {
    FrontShown(e, f, g, w);
    TokenInside(e, f, g, c.pos);
    hide Run, Window.Shown, EndsBehindDigits, StackFits, Step, HandleError, SkipSpace, ScanScalar, Respaced, Alike, Peek, TokenEnd, Left;
    StepShown(e, f, InFront(e, f, g), c);
    assert Later(c, 0) == c;
    RunOnce(e, c);
    RunOnce(f, c);
    if Step(e, c).state != Error {
      StepTakes(e, c);
      assert Step(f, c) == Step(e, c);
    }
  }

  /** From behind a step in front of the gap. */
  lemma {:induction false} GapShown(e: Env, f: Env, g: nat, w: seq<byte>, d: Conf)
    requires Respaced(e, f, g, w) && Live(d) && Gap(e, d.pos, g)
    ensures SameAnswer(Run(f, d.(pos := SkipSpace(f.text, d.pos))), Run(e, d.(pos := SkipSpace(e.text, d.pos))))
    decreases Left(e.text, d.pos)
  {
    hide Run, Window.Shown, EndsBehindDigits, StackFits, Step, HandleError, SkipSpace, ScanScalar, Respaced, Alike, Peek, TokenEnd;
    var q := SkipSpace(e.text, d.pos);
    var c := d.(pos := q);
    if d.pos <= g <= q {
      SkipGap(e, f, g, w, d.pos);
      BehindShown(e, f, g, w);
      RestShown(e, f, BehindGap(e, f, g, w), c);
    } else {
      FrontShown(e, f, g, w);
      SkipShown(InFront(e, f, g), d.pos);
      TurnShown(e, f, g, w, c);
      var n := Step(e, c);
      if n.state != Error && !(e.stopWhenDone && n.state == Finish) {
        GapShown(e, f, g, w, n);
      }
    }
  }

  lemma TokenInside(e: Env, f: Env, g: nat, q: nat)
    requires q < TokenEnd(e, q) <= g
    ensures Peek(e.text, q) != 0 && (IsPunctuation(Peek(e.text, q)) || Inside(InFront(e, f, g), ScanScalar(e, q)))
  {
    hide ScanString;
  }

  /** The text starts with the same byte. */
  lemma FirstByteShown(e: Env, f: Env, g: nat, w: seq<byte>)
    requires Respaced(e, f, g, w) && Gap(e, 0, g)
    ensures Peek(f.text, SkipSpace(f.text, 0)) == Peek(e.text, SkipSpace(e.text, 0))
  {
    hide Respaced, Alike, SkipSpace, Window.Shown, Peek, TokenEnd;
    var q := SkipSpace(e.text, 0);
    if g <= q {
      SkipGap(e, f, g, w, 0);
      BehindShown(e, f, g, w);
      ByteShown(BehindGap(e, f, g, w), q);
    } else {
      FrontShown(e, f, g, w);
      SkipShown(InFront(e, f, g), 0);
      ByteShown(InFront(e, f, g), q);
    }
  }

  /** The code of the recursive parser follows from that of the automaton and the first byte. */
  lemma CodeBack(e: Env)
    ensures var i, b := IterativeParse(e).error, Peek(e.text, SkipSpace(e.text, 0));
            Parse(e).error == if i == UnspecificSyntaxError || (i == DocumentEmpty && b != 0) then ValueInvalid else i
  {
    hide SkipSpace, IterativeParse, Parse;
    ParsersAgree(e);
    ParseExplained(e);
  }

  /**
   * A run of blanks, line feeds, carriage returns and tabs in front of the tokens of a text, between two of them or
   * behind them: both parsers answer as they do without it.
   */
  lemma BlanksDoNotMatter(e: Env, f: Env, g: nat, w: seq<byte>)
    requires Respaced(e, f, g, w) && Gap(e, 0, g)
    ensures SameAnswer(IterativeParse(f), IterativeParse(e)) && SameAnswer(Parse(f), Parse(e))
  {
    hide Run, Parse, Respaced, Gap, SkipSpace;
    GapShown(e, f, g, w, Conf(Start, 0, [], [], NoError));
    FirstByteShown(e, f, g, w);
    ParsersAgree(e);
    ParsersAgree(f);
    CodeBack(e);
    CodeBack(f);
  }
}
