/**
 * Len and Empty (container_matchers.go:25-59 and 371-410): both read the
 * value's length through getLength and differ only in what they test it
 * against.  Len hands the length, as a Go int, to an inner matcher.
 */
module Length {
  import opened Wrappers
  import opened Text
  import opened GoValues
  import opened Unordered

  /**
   * getLength: the result of a Len() method when the type has one, otherwise
   * the reflect length of an array, channel, map, slice or string; None for
   * everything else.  Channels and types with a Len() method are Opaque
   * values that carry their length.
   */
  function GetLength(x: Value): (r: Option<int>)
    ensures r.None? <==> x.IntVal? || (x.Opaque? && x.length.None?)
    ensures Elements(x).Some? ==> r == Some(|Elements(x).value|)
    ensures x.Map? ==> r == Some(|x.entries|)
    ensures x.Str? ==> r == Some(|x.s|)
    ensures r.Some? && !x.Opaque? ==> r.value >= 0
  {
    match x
    case Opaque(_, length, _) => length
    case Str(s) => Some(|s|)
    case Bytes(b) => Some(|b|)
    case Slice(_, es) => Some(|es|)
    case Map(_, entries) => Some(|entries|)
    case IntVal(_, _) => None
  }

  /** lenMatcher.Matches: the value has a length and the inner matcher accepts it as an int. */
  function LenMatches(inner: Matcher, x: Value): bool {
    match GetLength(x)
    case Some(n) => inner.matches(IntVal(Int, n))
    case None => false
  }

  /** emptyMatcher.Matches: the value has a length and it is zero. */
  function EmptyMatches(x: Value): bool {
    match GetLength(x)
    case Some(n) => n == 0
    case None => false
  }

  /** The ExplainFailure of both lenMatcher and emptyMatcher, which always explain. */
  function LengthExplanation(x: Value): (text: string)
    ensures GetLength(x).Some? ==> text == "length is " + IntToString(GetLength(x).value)
    ensures GetLength(x).None? ==> text == "type " + TypeName(x) + " doesn't have a length"
  {
    match GetLength(x)
    case Some(n) => "length is " + IntToString(n)
    case None => "type " + TypeName(x) + " doesn't have a length"
  }

  /** Len: the inner matcher tests the length. */
  function Len(inner: Matcher): (m: Matcher)
    ensures forall x :: m.matches(x) <==> GetLength(x).Some? && inner.matches(IntVal(Int, GetLength(x).value))
    ensures forall x :: m.explain(x) == Some(LengthExplanation(x))
  {
    Matcher(x => LenMatches(inner, x), "has length which " + inner.description, x => Some(LengthExplanation(x)))
  }

  /** Empty: a value with a length of zero. */
  function Empty(): (m: Matcher)
    ensures forall x :: m.matches(x) <==> GetLength(x) == Some(0)
    ensures m.description == "is empty"
  {
    Matcher(x => EmptyMatches(x), "is empty", x => Some(LengthExplanation(x)))
  }

  /**
   * Empty behaves as Len(0): with an inner matcher that accepts exactly the
   * int 0, Len accepts what Empty accepts and explains the same way.
   */
  lemma EmptyIsLenZero(zero: Matcher, x: Value)
    requires forall v :: zero.matches(v) <==> v == IntVal(Int, 0)
    ensures Len(zero).matches(x) == Empty().matches(x)
    ensures Len(zero).explain(x) == Empty().explain(x)
  {
  }

  /**
   * Whatever the unordered matchers accept has at least as many elements as
   * there are matchers, and exactly as many in full mode: Contains implies
   * Len(Ge(n)) and ElementsAreUnordered implies Len(n).
   */
  lemma UnorderedLength(ms: seq<Matcher>, matchAll: bool, x: Value)
    ensures UnorderedMatches(ms, matchAll, x) ==>
      GetLength(x).Some? && |ms| <= GetLength(x).value && (matchAll ==> GetLength(x).value == |ms|)
  {
  }
}
