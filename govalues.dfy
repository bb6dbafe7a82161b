/**
 * The Go values the matchers inspect and the Matcher interface itself.
 *
 * Go hands matchers an `any` and inspects it with reflection (Kind, Len,
 * Index, MapRange) and type switches.  Here a value is one tagged datatype
 * with a case for each shape the core distinguishes: integers of every Go
 * kind, strings, byte slices, other slices and arrays, maps, and everything
 * else.  A Go string is a sequence of bytes; Str holds one char per byte.
 */
module GoValues {
  import opened Wrappers
  import opened Text

  newtype byte = x: int | 0 <= x < 256

  /** The integer kinds of reflect; int, uint and uintptr are 64 bits wide. */
  datatype IntKind =
    | Int | Int8 | Int16 | Int32 | Int64
    | Uint | Uint8 | Uint16 | Uint32 | Uint64 | Uintptr
  {
    /** reflect's CanInt: a signed kind. */
    predicate Signed() {
      this == Int || this == Int8 || this == Int16 || this == Int32 || this == Int64
    }

    function Bits(): (n: nat)
      ensures n in {8, 16, 32, 64}
    {
      match this
      case Int8 | Uint8 => 8
      case Int16 | Uint16 => 16
      case Int32 | Uint32 => 32
      case _ => 64
    }

    /** The Go name of the type, as %T prints it. */
    function Name(): string {
      match this
      case Int => "int"
      case Int8 => "int8"
      case Int16 => "int16"
      case Int32 => "int32"
      case Int64 => "int64"
      case Uint => "uint"
      case Uint8 => "uint8"
      case Uint16 => "uint16"
      case Uint32 => "uint32"
      case Uint64 => "uint64"
      case Uintptr => "uintptr"
    }
  }

  /** 2 to the power of the kind's width: the number of values of the kind. */
  function Modulus(k: IntKind): (m: nat)
    ensures m in {0x100, 0x1_0000, 0x1_0000_0000, 0x1_0000_0000_0000_0000}
  {
    match k.Bits()
    case 8 => 0x100
    case 16 => 0x1_0000
    case 32 => 0x1_0000_0000
    case _ => 0x1_0000_0000_0000_0000
  }

  /** The integers a value of the kind can hold: two's complement for signed kinds. */
  predicate InRange(k: IntKind, v: int) {
    if k.Signed() then -(Modulus(k) / 2) <= v < Modulus(k) / 2
    else 0 <= v < Modulus(k)
  }

  const MaxInt64: int := 0x7FFF_FFFF_FFFF_FFFF
  const TwoTo64: int := 0x1_0000_0000_0000_0000

  datatype Value =
    | IntVal(kind: IntKind, v: int)
    | Str(s: string)
      /** a []byte */
    | Bytes(b: seq<byte>)
      /** any other slice or array, with its Go type name */
    | Slice(typeName: string, elems: seq<Value>)
      /** a map as its entries, in the (arbitrary) order Go iterates them */
    | Map(typeName: string, entries: seq<(Value, Value)>)
      /**
       * anything else: its type name, its length if it has one (a channel's
       * len, or the result of a Len() method) and its %v rendering
       */
    | Opaque(typeName: string, length: Option<int>, text: string)

  /** %T: the name of the value's type. */
  function TypeName(x: Value): string {
    match x
    case IntVal(k, _) => k.Name()
    case Str(_) => "string"
    case Bytes(_) => "[]uint8"
    case Slice(t, _) => t
    case Map(t, _) => t
    case Opaque(t, _, _) => t
  }

  /** %v: how fmt prints the value. */
  function Format(x: Value): string {
    match x
    case IntVal(_, v) => IntToString(v)
    case Str(s) => s
    case Bytes(b) => "[" + Join(seq(|b|, i requires 0 <= i < |b| => IntToString(b[i] as int)), " ") + "]"
    case Slice(_, es) => "[" + Join(seq(|es|, i requires 0 <= i < |es| => Format(es[i])), " ") + "]"
    case Map(_, kvs) =>
      "map[" + Join(seq(|kvs|, i requires 0 <= i < |kvs| => Format(kvs[i].0) + ":" + Format(kvs[i].1)), " ") + "]"
    case Opaque(_, _, text) => text
  }

  /**
   * The elements of a slice or array (reflect Kind Array or Slice), each as
   * r.Index(j).Interface() gives it; None for every other kind.
   */
  function Elements(x: Value): (r: Option<seq<Value>>)
    ensures r.Some? <==> x.Slice? || x.Bytes?
    ensures x.Bytes? ==> |r.value| == |x.b| && forall j :: 0 <= j < |x.b| ==> r.value[j] == IntVal(Uint8, x.b[j] as int)
    ensures x.Slice? ==> r.value == x.elems
  {
    match x
    case Slice(_, es) => Some(es)
    case Bytes(b) => Some(seq(|b|, j requires 0 <= j < |b| => IntVal(Uint8, b[j] as int)))
    case _ => None
  }

  /**
   * A matcher: what Matches answers, what String prints, and what
   * ExplainFailure gives when the matcher has one and it returns true (None
   * for matchers without ExplainFailure and for a false second result).
   */
  datatype Matcher = Matcher(matches: Value -> bool, description: string, explain: Value -> Option<string>)
}
