/** The text of a tree as a function of the tree, for the compact and the indented form. */
module Printing {
  import opened Stream
  import opened Events
  import opened Grammar
  import opened Dom
  import opened Powers

  // ---------- Integers ----------

  /** The decimal text of a number, without leading zeros. */
  function Digits(n: nat): (s: seq<byte>)
    ensures |s| > 0 && forall i :: 0 <= i < |s| ==> IsDigit(s[i])
    ensures n > 0 ==> s[0] != ZERO
    ensures n < 10 ==> s == [ZERO + n]
  {
    if n < 10 then [ZERO + n] else Digits(n / 10) + [ZERO + n % 10]
  }

  function IntegerText(i: int): seq<byte> { if i < 0 then [MINUS] + Digits(-i) else Digits(i) }

  /** The text reads back as the same number. */
  lemma {:induction false} DigitsDecimal(n: nat)
    ensures Decimal(Digits(n)) == n
  {
    if n < 10 {
      assert Digits(n)[..0] == [];
    } else {
      DigitsDecimal(n / 10);
      assert Digits(n)[..|Digits(n)| - 1] == Digits(n / 10);
    }
  }

  lemma {:induction false} DigitsLength(n: nat, k: nat)
    requires k > 0 && n < Pow(10, k)
    ensures |Digits(n)| <= k
  {
    if n >= 10 {
      assert Pow(10, 1) == 10;
      DigitsLength(n / 10, k - 1);
    }
  }

  lemma DigitsPush(n: nat, d: nat)
    requires n > 0 && d < 10
    ensures Digits(n * 10 + d) == Digits(n) + [ZERO + d]
  {
    assert (n * 10 + d) / 10 == n && (n * 10 + d) % 10 == d;
  }

  lemma DecimalLast(s: seq<byte>)
    requires s != [] && IsDigit(s[|s| - 1])
    ensures Decimal(s) == Decimal(s[..|s| - 1]) * 10 + (s[|s| - 1] - ZERO)
  {
  }

  lemma OneDigit(s: seq<byte>)
    requires |s| == 1 && IsDigit(s[0])
    ensures Decimal(s) == s[0] - ZERO && Digits(Decimal(s)) == s
  {
    assert s[..0] == [];
  }

  /** The only text of a number without a leading zero. */
  lemma {:induction false} DigitsUnique(s: seq<byte>)
    requires s != [] && (forall i :: 0 <= i < |s| ==> IsDigit(s[i])) && (|s| > 1 ==> s[0] != ZERO)
    ensures Digits(Decimal(s)) == s
    ensures |s| > 1 ==> Decimal(s) >= 10
    ensures s[0] != ZERO ==> Decimal(s) > 0
    decreases |s|
  {
    hide Digits, Decimal;
    var k := |s| - 1;
    if k > 0 {
      DigitsUnique(s[..k]);
      DecimalLast(s);
      DigitsPush(Decimal(s[..k]), s[k] - ZERO);
      assert s == s[..k] + [s[k]];
    } else {
      OneDigit(s);
    }
  }

  // ---------- Strings ----------

  function HexDigit(n: nat): byte
    requires n < 16
  {
    if n < 10 then 0x30 + n else 0x41 + n - 10
  }

  /** The escape table of the writer: 0 for a byte that is written as it is. */
  function EscapeLetter(c: byte): byte {
    match c
    case 0x08 => 0x62
    case 0x09 => 0x74
    case 0x0A => 0x6E
    case 0x0C => 0x66
    case 0x0D => 0x72
    case 0x22 => 0x22
    case 0x5C => 0x5C
    case _ => if c < 0x20 then LOWER_U else 0
  }

  function EscapeByte(c: byte): (s: seq<byte>)
    ensures |s| > 0
  {
    var x := EscapeLetter(c);
    if x == 0 then [c]
    else if x == LOWER_U then [BACKSLASH, x, ZERO, ZERO, HexDigit(c / 16), HexDigit(c % 16)]
    else [BACKSLASH, x]
  }

  function EscapeAll(s: seq<byte>): seq<byte> {
    if s == [] then [] else EscapeAll(s[..|s| - 1]) + EscapeByte(s[|s| - 1])
  }

  function Quoted(s: seq<byte>): seq<byte> { [QUOTE] + EscapeAll(s) + [QUOTE] }

  // ---------- Layout ----------

  /** The layout; `dtoa` is the text that a double is written as. */
  datatype Format = Compact(dtoa: nat -> seq<byte>) | Pretty(dtoa: nat -> seq<byte>, indentChar: byte, indentCount: nat)

  /** SetIndent asserts that the indentation character is whitespace. */
  predicate IsFormat(f: Format) { f.Pretty? ==> IsSpace(f.indentChar) }

  function Repeat(c: byte, n: nat): (s: seq<byte>)
    ensures |s| == n && forall i :: 0 <= i < n ==> s[i] == c
  {
    seq(n, i => c)
  }

  /** The line break and indentation in front of an element, a name or a closing bracket at `depth`. */
  function NewLine(f: Format, depth: nat): (s: seq<byte>)
    ensures IsFormat(f) ==> forall i :: 0 <= i < |s| ==> IsSpace(s[i])
  {
    match f
    case Compact(_) => []
    case Pretty(_, c, n) => [0x0A] + Repeat(c, depth * n)
  }

  function Colon(f: Format): seq<byte> { if f.Compact? then [COLON] else [COLON, 0x20] }

  // ---------- Trees ----------

  function Word(b: bool): seq<byte> { if b then TRUE_WORD else FALSE_WORD }

  /** The text of the value that a scalar event carries. */
  function ScalarText(f: Format, x: Event): seq<byte> {
    match x
    case Null => NULL_WORD
    case Bool(b) => Word(b)
    case Int(i) => IntegerText(i)
    case Uint(u) => Digits(u)
    case Int64(i) => IntegerText(i)
    case Uint64(u) => Digits(u)
    case Double(bits) => f.dtoa(bits)
    case String(s) => Quoted(s)
    case Key(s) => Quoted(s)
    case _ => []
  }

  /** The text of a tree whose container, if any, is at nesting depth `depth`. */
  function Print(f: Format, v: Value, depth: nat): seq<byte>
    decreases v, 1
  {
    match v
    case NullValue => NULL_WORD
    case BoolValue(b) => Word(b)
    case NumberValue(n) => ScalarText(f, NumberEvent(n))
    case DoubleValue(bits) => f.dtoa(bits)
    case StringValue(s) => Quoted(s)
    case ArrayValue(elements) =>
      if elements == [] then [LBRACKET, RBRACKET]
      else [LBRACKET] + PrintElements(f, elements, depth + 1) + NewLine(f, depth) + [RBRACKET]
    case ObjectValue(members) =>
      if members == [] then [LCURLY, RCURLY]
      else [LCURLY] + PrintMembers(f, members, depth + 1) + NewLine(f, depth) + [RCURLY]
  }

  function PrintElements(f: Format, elements: seq<Value>, depth: nat): seq<byte>
    requires elements != []
    decreases elements, 0
  {
    var rest := elements[1..];
    NewLine(f, depth) + Print(f, elements[0], depth) + if rest == [] then [] else [COMMA] + PrintElements(f, rest, depth)
  }

  function PrintMembers(f: Format, members: seq<Member>, depth: nat): seq<byte>
    requires members != []
    decreases members, 0
  {
    var rest := members[1..];
    NewLine(f, depth) + Quoted(members[0].name) + Colon(f) + Print(f, members[0].value, depth)
    + if rest == [] then [] else [COMMA] + PrintMembers(f, rest, depth)
  }
}
