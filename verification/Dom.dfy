/** The document tree, the four integer representations of its numbers, and the events that Accept walks. */
module Dom {
  import opened Stream
  import opened Events

  const TWO31: int := 0x8000_0000
  const TWO32: int := 0x1_0000_0000
  const TWO63: int := 0x8000_0000_0000_0000
  const TWO64: int := 0x1_0000_0000_0000_0000

  /** The flags that say as which integer types a number can be read. */
  datatype Flags = Flags(isInt: bool, isUint: bool, isInt64: bool, isUint64: bool)

  /** An integer number: its flags and the 64 bits of the union that holds it. */
  datatype Number = Number(flags: Flags, bits: nat)

  datatype Value =
    | NullValue
    | BoolValue(b: bool)
    | NumberValue(number: Number)
    | DoubleValue(double: nat)
    | StringValue(str: seq<byte>)
    | ArrayValue(elements: seq<Value>)
    | ObjectValue(members: seq<Member>)

  datatype Member = Member(name: seq<byte>, value: Value)

  // ---------- The integer constructors; a test of high bits with a mask is a comparison ----------

  predicate IsInt(i: int) { -TWO31 <= i < TWO31 }
  predicate IsUint(i: int) { 0 <= i < TWO32 }
  predicate IsInt64(i: int) { -TWO63 <= i < TWO63 }
  predicate IsUint64(i: int) { 0 <= i < TWO64 }

  /** Two's complement in 64 bits. */
  function Bits(i: int): nat
    requires -TWO63 <= i < TWO64
  {
    if i < 0 then i + TWO64 else i
  }

  function FromInt(i: int): Number
    requires IsInt(i)
  {
    if i >= 0 then Number(Flags(true, true, true, true), Bits(i)) else Number(Flags(true, false, true, false), Bits(i))
  }

  function FromUint(u: int): Number
    requires IsUint(u)
  {
    Number(Flags(u < TWO31, true, true, true), Bits(u))
  }

  function FromInt64(i: int): Number
    requires IsInt64(i)
  {
    if i >= 0 then Number(Flags(i < TWO31, i < TWO32, true, true), Bits(i))
    else Number(Flags(i >= -TWO31, false, true, false), Bits(i))
  }

  function FromUint64(u: int): Number
    requires IsUint64(u)
  {
    Number(Flags(u < TWO31, u < TWO32, u < TWO63, true), Bits(u))
  }

  /** The number that the value alone determines: each flag says that the value fits the type. */
  function Canonical(i: int): Number
    requires -TWO63 <= i < TWO64
  {
    Number(Flags(IsInt(i), IsUint(i), IsInt64(i), IsUint64(i)), Bits(i))
  }

  /** Which constructor built a number cannot be seen: flags and bits depend on the value only. */
  lemma ConstructorsCanonical(i: int)
    ensures IsInt(i) ==> FromInt(i) == Canonical(i)
    ensures IsUint(i) ==> FromUint(i) == Canonical(i)
    ensures IsInt64(i) ==> FromInt64(i) == Canonical(i)
    ensures IsUint64(i) ==> FromUint64(i) == Canonical(i)
    ensures -0x8000_0000_0000_0000 <= i < 0x1_0000_0000_0000_0000 ==>
              && Canonical(i).flags.isInt == (-0x8000_0000 <= i < 0x8000_0000) && Canonical(i).flags.isUint == (0 <= i < 0x1_0000_0000)
              && Canonical(i).flags.isInt64 == (i < 0x8000_0000_0000_0000) && Canonical(i).flags.isUint64 == (i >= 0)
              && Canonical(i).bits == if i >= 0 then i else i + 0x1_0000_0000_0000_0000
  {
  }

  /** And nothing of the value is lost. */
  lemma CanonicalInjective(i: int, j: int)
    requires -TWO63 <= i < TWO64 && -TWO63 <= j < TWO64 && Canonical(i) == Canonical(j)
    ensures i == j
  {
  }

  // ---------- Accept ----------

  /** The low 32 bits read as a signed number. */
  function Low32Signed(bits: nat): int {
    var low := bits % TWO32;
    if low < TWO31 then low else low - TWO32
  }

  function Signed64(bits: nat): int { if bits < TWO63 then bits else bits - TWO64 }

  /** The event of a number: the first of the four types whose flag is set. */
  function NumberEvent(n: Number): Event {
    if n.flags.isInt then Int(Low32Signed(n.bits))
    else if n.flags.isUint then Uint(n.bits % TWO32)
    else if n.flags.isInt64 then Int64(Signed64(n.bits))
    else if n.flags.isUint64 then Uint64(n.bits)
    else Double(n.bits)
  }

  /** The event of a number from the constructors carries its value, whichever of the four types it is. */
  lemma NumberEventValue(i: int)
    requires -TWO63 <= i < TWO64
    ensures var x := NumberEvent(Canonical(i));
            x == if IsInt(i) then Int(i) else if IsUint(i) then Uint(i) else if IsInt64(i) then Int64(i) else Uint64(i)
  {
  }

  /** The events that Accept delivers, in order. */
  function Accept(v: Value): seq<Event>
    decreases v, 1
  {
    match v
    case NullValue => [Null]
    case BoolValue(b) => [Bool(b)]
    case NumberValue(n) => [NumberEvent(n)]
    case DoubleValue(bits) => [Double(bits)]
    case StringValue(s) => [String(s)]
    case ArrayValue(elements) => [StartArray] + AcceptElements(elements) + [EndArray(|elements|)]
    case ObjectValue(members) => [StartObject] + AcceptMembers(members) + [EndObject(|members|)]
  }

  function AcceptElements(elements: seq<Value>): seq<Event>
    decreases elements, 0
  {
    if elements == [] then [] else Accept(elements[0]) + AcceptElements(elements[1..])
  }

  function AcceptMembers(members: seq<Member>): seq<Event>
    decreases members, 0
  {
    if members == [] then []
    else [Key(members[0].name)] + Accept(members[0].value) + AcceptMembers(members[1..])
  }

  // ---------- Trees that the constructors and the parser build ----------

  ghost predicate IsNumber(n: Number) { exists i :: -TWO63 <= i < TWO64 && n == Canonical(i) }

  /** A tree without default numbers: its integers come from the constructors.  Doubles and strings may be any. */
  ghost predicate IsCanonical(v: Value)
    decreases v, 1
  {
    match v
    case NumberValue(n) => IsNumber(n)
    case ArrayValue(elements) => AreCanonical(elements)
    case ObjectValue(members) => MembersCanonical(members)
    case _ => true
  }

  ghost predicate AreCanonical(elements: seq<Value>)
    decreases elements, 0
  {
    elements == [] || (IsCanonical(elements[0]) && AreCanonical(elements[1..]))
  }

  ghost predicate MembersCanonical(members: seq<Member>)
    decreases members, 0
  {
    members == [] || (IsCanonical(members[0].value) && MembersCanonical(members[1..]))
  }

  /** A tree that can be printed and read back: canonical, without doubles, and with sizes that fit SizeType. */
  ghost predicate IsTree(v: Value)
    decreases v, 1
  {
    match v
    case NullValue | BoolValue(_) => true
    case NumberValue(n) => IsNumber(n)
    case DoubleValue(_) => false
    case StringValue(s) => true
    case ArrayValue(elements) => |elements| < SIZE_LIMIT && AreTrees(elements)
    case ObjectValue(members) => |members| < SIZE_LIMIT && AreMembers(members)
  }

  ghost predicate AreTrees(elements: seq<Value>)
    decreases elements, 0
  {
    elements == [] || (IsTree(elements[0]) && AreTrees(elements[1..]))
  }

  ghost predicate AreMembers(members: seq<Member>)
    decreases members, 0
  {
    members == [] || (IsTree(members[0].value) && AreMembers(members[1..]))
  }

  lemma {:induction false} TreeIsCanonical(v: Value)
    requires IsTree(v)
    ensures IsCanonical(v)
    decreases v, 1
  {
    match v {
      case ArrayValue(elements) => TreesAreCanonical(elements);
      case ObjectValue(members) => MembersAreCanonical(members);
      case _ =>
    }
  }

  lemma {:induction false} TreesAreCanonical(elements: seq<Value>)
    requires AreTrees(elements)
    ensures AreCanonical(elements)
    decreases elements, 0
  {
    if elements != [] {
      TreeIsCanonical(elements[0]);
      TreesAreCanonical(elements[1..]);
    }
  }

  lemma {:induction false} MembersAreCanonical(members: seq<Member>)
    requires AreMembers(members)
    ensures MembersCanonical(members)
    decreases members, 0
  {
    if members != [] {
      TreeIsCanonical(members[0].value);
      MembersAreCanonical(members[1..]);
    }
  }
}
