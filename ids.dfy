/**
 * Identities shared by items, targets and the assignment map.
 *
 * An identity is a `number | string`; compared with `===`, a number never
 * equals a string, which is what datatype equality gives. Only integral
 * numbers are modelled.
 *
 * Used as a property key of a plain object, an identity is converted to a
 * string: a string stays itself and an integral number becomes its decimal
 * text ("-" followed by the digits when negative). `NumberKey` is that
 * conversion and `ParseNumberKey` its inverse.
 */
module Ids {

  datatype Id = IntId(n: int) | StrId(s: string)

  /** A pointer position `(clientX, clientY)`. */
  type Coors = (int, int)

  function DigitValue(c: char): int
  {
    (c as int) - ('0' as int)
  }

  function DigitChar(d: nat): (c: char)
    requires d < 10
    ensures '0' <= c <= '9'
    ensures DigitValue(c) == d
  {
    (('0' as int) + d) as char
  }

  predicate IsDigits(s: string)
  {
    forall i :: 0 <= i < |s| ==> '0' <= s[i] <= '9'
  }

  /** Decimal text of a natural number, most significant digit first. */
  function NatDecimal(n: nat): (s: string)
    ensures |s| >= 1 && IsDigits(s)
    ensures n != 0 ==> s[0] != '0'
    decreases n
  {
    if n < 10 then [DigitChar(n)] else NatDecimal(n / 10) + [DigitChar(n % 10)]
  }

  /** The number a string of decimal digits denotes. */
  function DecimalValue(s: string): int
    decreases |s|
  {
    if s == [] then 0 else 10 * DecimalValue(s[..|s| - 1]) + DigitValue(s[|s| - 1])
  }

  lemma {:induction false} DecimalRoundTrip(n: nat)
    ensures DecimalValue(NatDecimal(n)) == n
  {
    if n >= 10 {
      var s := NatDecimal(n);
      assert s[..|s| - 1] == NatDecimal(n / 10);
      DecimalRoundTrip(n / 10);
    }
  }

  /** The property key an integral number becomes. */
  function NumberKey(n: int): (s: string)
    ensures |s| >= 1
    ensures (s[0] == '-') <==> n < 0
  {
    if n < 0 then "-" + NatDecimal(-n) else NatDecimal(n)
  }

  function ParseNumberKey(s: string): int
  {
    if |s| > 0 && s[0] == '-' then -DecimalValue(s[1..]) else DecimalValue(s)
  }

  lemma NumberKeyRoundTrip(n: int)
    ensures ParseNumberKey(NumberKey(n)) == n
  {
    if n < 0 {
      assert NumberKey(n)[1..] == NatDecimal(-n);
      DecimalRoundTrip(-n);
    } else {
      DecimalRoundTrip(n);
    }
  }

  /** Distinct numbers never share a property key. */
  lemma NumberKeyInjective(a: int, b: int)
    ensures NumberKey(a) == NumberKey(b) <==> a == b
  {
    NumberKeyRoundTrip(a);
    NumberKeyRoundTrip(b);
  }

  /** The key under which an identity is stored in a plain object. */
  function PropertyKey(p: Id): (k: string)
    ensures p.StrId? ==> k == p.s
    ensures p.IntId? ==> ParseNumberKey(k) == p.n
  {
    NumberKeyRoundTrip(if p.IntId? then p.n else 0);
    match p
    case IntId(n) => NumberKey(n)
    case StrId(s) => s
  }
}
