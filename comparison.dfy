/**
 * The ordering matchers Gt, Lt, Ge and Le (comparison_matchers.go), for
 * integer and string operands.  tryCompare compares two strings byte by
 * byte and two integers of any Go kinds by their mathematical values: it
 * sorts each operand into a class (negative, non-negative signed, unsigned,
 * unsigned above MaxInt64) and settles mixed classes by sign and size before
 * comparing like with like.  The float classes are not part of this model.
 */
module Comparison {
  import opened Wrappers
  import opened GoValues

  /** The integer part of numClass, and numClassNonNumeric. */
  datatype NumClass = NonNumeric | NormalInt | NegativeInt | NormalUint | BigUint

  /** classify, on integers: signed kinds by sign, unsigned kinds by whether they exceed MaxInt64. */
  function Classify(x: Value): (c: NumClass)
    ensures c == NonNumeric <==> !x.IntVal?
    ensures x.IntVal? && InRange(x.kind, x.v) ==>
      (c == NegativeInt <==> x.v < 0) && (c == BigUint <==> x.v > MaxInt64) &&
      (c == NormalInt ==> x.kind.Signed()) && (c == NormalUint ==> !x.kind.Signed())
  {
    match x
    case IntVal(k, v) =>
      if k.Signed() && v < 0 then NegativeInt
      else if k.Signed() then NormalInt
      else if v > MaxInt64 then BigUint
      else NormalUint
    case _ => NonNumeric
  }

  /**
   * toUint64: an unsigned value as it is, a signed one converted with
   * uint64(), which wraps a negative number around 2^64.
   */
  function ToUint64(x: Value): (r: int)
    ensures x.IntVal? && InRange(x.kind, x.v) ==> 0 <= r < TwoTo64
    ensures x.IntVal? && InRange(x.kind, x.v) && x.v >= 0 ==> r == x.v
    ensures x.IntVal? && InRange(x.kind, x.v) && x.v < 0 ==> r == x.v + TwoTo64
    ensures !x.IntVal? ==> r == 0
  {
    match x
    case IntVal(k, v) => if k.Signed() then v % TwoTo64 else v
    case _ => 0
  }

  /** -1, 0 or 1 as a is below, equal to or above b. */
  function Cmp(a: int, b: int): int {
    if a < b then -1 else if a > b then 1 else 0
  }

  /** strings.Compare: byte-by-byte, a proper prefix before the longer string. */
  function StrCompare(a: string, b: string): (r: int)
    ensures r in {-1, 0, 1}
    ensures r == 0 <==> a == b
  {
    if a == [] && b == [] then 0
    else if a == [] then -1
    else if b == [] then 1
    else if a[0] < b[0] then -1
    else if a[0] > b[0] then 1
    else
      assert a == [a[0]] + a[1..] && b == [b[0]] + b[1..];
      StrCompare(a[1..], b[1..])
  }

  /**
   * Lexicographic order, defined independently: after a common prefix of
   * length k, either a ends where b goes on, or a's next byte is smaller.
   */
  ghost predicate LexLess(a: string, b: string) {
    exists k: nat | k <= |a| && k <= |b| :: a[..k] == b[..k] &&
      (k == |a| < |b| || (k < |a| && k < |b| && a[k] < b[k]))
  }

  /** Swapping the strings negates the comparison. */
  lemma {:induction false} StrCompareAntisymmetric(a: string, b: string)
    ensures StrCompare(b, a) == -StrCompare(a, b)
  {
    if a != [] && b != [] && a[0] == b[0] {
      StrCompareAntisymmetric(a[1..], b[1..]);
    }
  }

  /** strings.Compare answers -1 exactly for lexicographically smaller strings. */
  lemma {:induction false} StrCompareIsLexicographic(a: string, b: string)
    ensures StrCompare(a, b) == -1 <==> LexLess(a, b)
  {
    if a == [] && b == [] {
      assert !LexLess(a, b);
    } else if a == [] {
      assert a[..0] == b[..0];
    } else if b == [] {
      assert !LexLess(a, b);
    } else if a[0] < b[0] {
      assert a[..0] == b[..0];
    } else if a[0] > b[0] {
      forall k: nat | 0 < k <= |a| && k <= |b| ensures a[..k] != b[..k] {
        assert a[..k][0] == a[0] && b[..k][0] == b[0];
      }
    } else {
      StrCompareIsLexicographic(a[1..], b[1..]);
      LexLessTail(a, b);
    }
  }

  /** Past an equal first byte, the order is that of the rests. */
  lemma LexLessTail(a: string, b: string)
    requires a != [] && b != [] && a[0] == b[0]
    ensures LexLess(a, b) <==> LexLess(a[1..], b[1..])
  {
    if LexLess(a, b) {
      var k: nat :| k <= |a| && k <= |b| && a[..k] == b[..k] &&
        (k == |a| < |b| || (k < |a| && k < |b| && a[k] < b[k]));
      TailWitness(a, b, k);
    }
    if LexLess(a[1..], b[1..]) {
      var k: nat :| k <= |a[1..]| && k <= |b[1..]| && a[1..][..k] == b[1..][..k] &&
        (k == |a[1..]| < |b[1..]| || (k < |a[1..]| && k < |b[1..]| && a[1..][k] < b[1..][k]));
      HeadWitness(a, b, k);
    }
  }

  /** A first difference at k > 0 is one at k - 1 in the rests. */
  lemma TailWitness(a: string, b: string, k: nat)
    requires a != [] && b != [] && a[0] == b[0]
    requires k <= |a| && k <= |b| && a[..k] == b[..k]
    requires k == |a| < |b| || (k < |a| && k < |b| && a[k] < b[k])
    ensures LexLess(a[1..], b[1..])
  {
    assert k != 0;
    var a', b' := a[1..], b[1..];
    assert a'[..k - 1] == a[..k][1..] && b'[..k - 1] == b[..k][1..];
    assert k - 1 < |a'| && k - 1 < |b'| ==> a'[k - 1] == a[k] && b'[k - 1] == b[k];
  }

  /** A first difference at k in the rests is one at k + 1. */
  lemma HeadWitness(a: string, b: string, k: nat)
    requires a != [] && b != [] && a[0] == b[0]
    requires k <= |a[1..]| && k <= |b[1..]| && a[1..][..k] == b[1..][..k]
    requires k == |a[1..]| < |b[1..]| || (k < |a[1..]| && k < |b[1..]| && a[1..][k] < b[1..][k])
    ensures LexLess(a, b)
  {
    assert a[..k + 1] == [a[0]] + a[1..][..k] && b[..k + 1] == [b[0]] + b[1..][..k];
  }

  /**
   * tryCompare, on strings and integers: whether the two can be compared,
   * and -1, 0 or 1 as actual is below, equal to or above threshold.  Only
   * two strings or two integers can be compared; a string against a number,
   * or anything else, cannot.
   */
  function TryCompare(actual: Value, threshold: Value): (r: (bool, int))
    ensures r.0 <==> (actual.Str? && threshold.Str?) || (actual.IntVal? && threshold.IntVal?)
    ensures !r.0 ==> r.1 == 0
  {
    if actual.Str? && threshold.Str? then (true, StrCompare(actual.s, threshold.s))
    else
      var ac := Classify(actual);
      var tc := Classify(threshold);
      if ac == NonNumeric || tc == NonNumeric then (false, 0)
      else if ac == BigUint && tc == BigUint then (true, Cmp(actual.v, threshold.v))
      else if ac == NegativeInt && tc in {NormalInt, NormalUint, BigUint} then (true, -1)
      else if tc == NegativeInt && ac in {NormalInt, NormalUint, BigUint} then (true, 1)
      else if ac == BigUint && tc in {NormalInt, NormalUint} then (true, 1)
      else if tc == BigUint && ac in {NormalInt, NormalUint} then (true, -1)
      else if ac in {NormalInt, NormalUint} && tc in {NormalInt, NormalUint} then
        (true, Cmp(ToUint64(actual), ToUint64(threshold)))
      else if ac == NegativeInt && tc == NegativeInt then (true, Cmp(actual.v, threshold.v))
      else (false, 0)
  }

  /** A Go integer holds a value of its kind. */
  predicate WellFormed(x: Value) {
    x.IntVal? ==> InRange(x.kind, x.v)
  }

  /**
   * Two integers of any kinds compare by value, whatever their signedness
   * and width: the class cases together agree with plain integer order.
   */
  lemma TryCompareIntegers(a: Value, t: Value)
    requires a.IntVal? && t.IntVal? && WellFormed(a) && WellFormed(t)
    ensures TryCompare(a, t) == (true, Cmp(a.v, t.v))
  {
    var ac := Classify(a);
    var tc := Classify(t);
    if ac in {NormalInt, NormalUint} && tc in {NormalInt, NormalUint} {
      assert ToUint64(a) == a.v && ToUint64(t) == t.v;
    }
  }

  /** Two strings compare byte by byte. */
  lemma TryCompareStrings(a: Value, t: Value)
    requires a.Str? && t.Str?
    ensures TryCompare(a, t).0 && (TryCompare(a, t).1 == -1 <==> LexLess(a.s, t.s))
    ensures TryCompare(a, t).1 == 0 <==> a.s == t.s
  {
    StrCompareIsLexicographic(a.s, t.s);
  }

  /** Swapping the operands negates the comparison. */
  lemma TryCompareSwap(a: Value, t: Value)
    requires WellFormed(a) && WellFormed(t)
    ensures TryCompare(t, a) == (TryCompare(a, t).0, -TryCompare(a, t).1)
  {
    if a.Str? && t.Str? {
      StrCompareAntisymmetric(a.s, t.s);
    } else if a.IntVal? && t.IntVal? {
      TryCompareIntegers(a, t);
      TryCompareIntegers(t, a);
    }
  }

  /** The %v (%T) rendering of the threshold in the descriptions. */
  function ThresholdText(t: Value): string {
    Format(t) + " (" + TypeName(t) + ")"
  }

  /** gtMatcher.Matches: comparable and above the threshold. */
  function GtMatches(t: Value, x: Value): bool {
    var (ok, c) := TryCompare(x, t);
    ok && c > 0
  }

  /** ltMatcher.Matches: comparable and below the threshold. */
  function LtMatches(t: Value, x: Value): bool {
    var (ok, c) := TryCompare(x, t);
    ok && c < 0
  }

  /** geMatcher.Matches: comparable and not below the threshold. */
  function GeMatches(t: Value, x: Value): bool {
    var (ok, c) := TryCompare(x, t);
    ok && c >= 0
  }

  /** leMatcher.Matches: comparable and not above the threshold. */
  function LeMatches(t: Value, x: Value): bool {
    var (ok, c) := TryCompare(x, t);
    ok && c <= 0
  }

  /** What the four matchers decide, in terms of integer order and lexicographic order. */
  lemma OrderMeaning(t: Value, x: Value)
    requires WellFormed(t) && WellFormed(x)
    ensures x.IntVal? && t.IntVal? ==>
      (GtMatches(t, x) <==> x.v > t.v) && (LtMatches(t, x) <==> x.v < t.v) &&
      (GeMatches(t, x) <==> x.v >= t.v) && (LeMatches(t, x) <==> x.v <= t.v)
    ensures x.Str? && t.Str? ==>
      (GtMatches(t, x) <==> LexLess(t.s, x.s)) && (LtMatches(t, x) <==> LexLess(x.s, t.s)) &&
      (GeMatches(t, x) <==> !LexLess(x.s, t.s)) && (LeMatches(t, x) <==> !LexLess(t.s, x.s))
    ensures !((x.IntVal? && t.IntVal?) || (x.Str? && t.Str?)) ==>
      !GtMatches(t, x) && !LtMatches(t, x) && !GeMatches(t, x) && !LeMatches(t, x)
  {
    if x.IntVal? && t.IntVal? {
      TryCompareIntegers(x, t);
    }
    if x.Str? && t.Str? {
      StrCompareIsLexicographic(x.s, t.s);
      StrCompareIsLexicographic(t.s, x.s);
      StrCompareAntisymmetric(x.s, t.s);
    }
  }

  /**
   * Ge is Gt or equal, Le is Lt or equal; on comparable operands Le is the
   * complement of Gt and Ge of Lt; and Lt(t) accepts x exactly when Gt(x)
   * accepts t.
   */
  lemma OrderRelations(t: Value, x: Value)
    requires WellFormed(t) && WellFormed(x)
    ensures TryCompare(x, t).0 ==> (LeMatches(t, x) <==> !GtMatches(t, x)) && (GeMatches(t, x) <==> !LtMatches(t, x))
    ensures GeMatches(t, x) <==> GtMatches(t, x) || (TryCompare(x, t).0 && TryCompare(x, t).1 == 0)
    ensures LeMatches(t, x) <==> LtMatches(t, x) || (TryCompare(x, t).0 && TryCompare(x, t).1 == 0)
    ensures LtMatches(t, x) <==> GtMatches(x, t)
    ensures LeMatches(t, x) <==> GeMatches(x, t)
  {
    TryCompareSwap(x, t);
  }

  /** Gt: an integer or string above the threshold. */
  function Gt(t: Value): (m: Matcher)
    ensures m.description == "is greater than " + ThresholdText(t)
    ensures forall x :: m.matches(x) <==> GtMatches(t, x)
  {
    Matcher(x => GtMatches(t, x), "is greater than " + ThresholdText(t), x => None)
  }

  /** Lt: an integer or string below the threshold. */
  function Lt(t: Value): (m: Matcher)
    ensures m.description == "is less than " + ThresholdText(t)
    ensures forall x :: m.matches(x) <==> LtMatches(t, x)
  {
    Matcher(x => LtMatches(t, x), "is less than " + ThresholdText(t), x => None)
  }

  /** Ge: an integer or string not below the threshold. */
  function Ge(t: Value): (m: Matcher)
    ensures m.description == "is greater than or equal to " + ThresholdText(t)
    ensures forall x :: m.matches(x) <==> GeMatches(t, x)
  {
    Matcher(x => GeMatches(t, x), "is greater than or equal to " + ThresholdText(t), x => None)
  }

  /** Le: an integer or string not above the threshold. */
  function Le(t: Value): (m: Matcher)
    ensures m.description == "is less than or equal to " + ThresholdText(t)
    ensures forall x :: m.matches(x) <==> LeMatches(t, x)
  {
    Matcher(x => LeMatches(t, x), "is less than or equal to " + ThresholdText(t), x => None)
  }

  /**
   * Values of different kinds compare by value: int8(-1) is below the
   * largest uint64, uint64(2^63) above int64 MaxInt64; "banana" is above
   * "apple"; a string is never compared with a number.
   */
  lemma MixedKindExamples()
    ensures LtMatches(IntVal(Uint64, TwoTo64 - 1), IntVal(Int8, -1))
    ensures GtMatches(IntVal(Int64, MaxInt64), IntVal(Uint64, MaxInt64 + 1))
    ensures GeMatches(IntVal(Uint8, 5), IntVal(Int, 5))
    ensures GtMatches(Str("apple"), Str("banana"))
    ensures !GtMatches(IntVal(Int, 3), Str("5"))
  {
  }
}
