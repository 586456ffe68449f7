/** The parts of JavaScript's value semantics that the session layer relies on:
    optional values, the null/undefined/string values a token variable can hold,
    truthiness, template-string conversion, Number.prototype.toString(radix)
    and String.prototype.padStart. */
module Js {

  datatype Option<+T> = None | Some(value: T) {
    predicate IsFailure() { None? }

    function PropagateFailure<U>(): Option<U>
      requires None?
    {
      None
    }

    function Extract(): T
      requires Some?
    {
      value
    }
  }

  datatype Result<+T, +E> = Ok(value: T) | Err(error: E)

  /** The run-time values of a token variable. The stores are declared
      `string | null`, but a JSON body without the field yields `undefined`. */
  datatype JsValue = Undefined | Null | Str(s: string)

  /** `!!v`: null, undefined and the empty string are falsy. */
  predicate Truthy(v: JsValue) {
    v.Str? && |v.s| > 0
  }

  /** String conversion inside a template literal, `${v}`. */
  function ToText(v: JsValue): string {
    match v
    case Undefined => "undefined"
    case Null => "null"
    case Str(s) => s
  }

  type Radix = r: nat | 2 <= r <= 16 witness 10

  /** The lower-case digit that toString(radix) prints for d. */
  function DigitChar(d: nat): char
    requires d < 16
  {
    if d < 10 then ('0' as int + d) as char else ('a' as int + d - 10) as char
  }

  /** The value of a digit character, 16 for anything that is not a digit. */
  function DigitOf(c: char): (d: nat)
    ensures d <= 16
  {
    if '0' <= c <= '9' then (c as int) - ('0' as int)
    else if 'a' <= c <= 'f' then (c as int) - ('a' as int) + 10
    else 16
  }

  predicate AllDigits(s: string, radix: Radix) {
    forall i :: 0 <= i < |s| ==> DigitOf(s[i]) < radix
  }

  /** The number a digit string denotes in the given radix. */
  function ValueOf(s: string, radix: Radix): nat
    requires AllDigits(s, radix)
  {
    if s == [] then 0
    else ValueOf(s[..|s| - 1], radix) * radix + DigitOf(s[|s| - 1])
  }

  /** `n.toString(radix)` for a non-negative integer n: no leading zeros, lower case. */
  function NatToString(n: nat, radix: Radix): (s: string)
    ensures |s| >= 1
    ensures n >= radix ==> |s| >= 2
    decreases n
  {
    if n < radix then [DigitChar(n)]
    else NatToString(n / radix, radix) + [DigitChar(n % radix)]
  }

  /** `n.toString()` for an integer n. */
  function IntToString(n: int): string {
    if n < 0 then "-" + NatToString(-n, 10) else NatToString(n, 10)
  }

  /** `s.padStart(targetLength, fill)` with a one-character fill string. */
  function PadStart(s: string, targetLength: nat, fill: char): (r: string)
    ensures |r| == if |s| >= targetLength then |s| else targetLength
  {
    if |s| >= targetLength then s else Repeat(fill, targetLength - |s|) + s
  }

  /** `count` copies of `c`. */
  function Repeat(c: char, count: nat): (r: string)
    ensures |r| == count
  {
    if count == 0 then [] else [c] + Repeat(c, count - 1)
  }

  lemma {:induction false} RepeatAll(c: char, count: nat)
    ensures forall i :: 0 <= i < count ==> Repeat(c, count)[i] == c
  {
    if count > 0 {
      RepeatAll(c, count - 1);
      assert forall i :: 1 <= i < count ==> Repeat(c, count)[i] == Repeat(c, count - 1)[i - 1];
    }
  }

  /** padStart keeps the text at the end and fills in front of it. */
  lemma PadStartShape(s: string, targetLength: nat, fill: char)
    ensures var r := PadStart(s, targetLength, fill);
      && r[|r| - |s|..] == s
      && forall i :: 0 <= i < |r| - |s| ==> r[i] == fill
  {
    if |s| < targetLength {
      RepeatAll(fill, targetLength - |s|);
    }
  }

  lemma DigitRoundTrip(d: nat)
    requires d < 16
    ensures DigitOf(DigitChar(d)) == d
  {
  }

  lemma ValueOfSnoc(s: string, c: char, radix: Radix)
    requires AllDigits(s, radix) && DigitOf(c) < radix
    ensures AllDigits(s + [c], radix)
    ensures ValueOf(s + [c], radix) == ValueOf(s, radix) * radix + DigitOf(c)
  {
    assert (s + [c])[..|s|] == s;
  }

  lemma DivMod(n: nat, radix: Radix)
    ensures n == (n / radix) * radix + n % radix
    ensures n % radix < radix
    ensures n >= radix ==> n / radix < n
  {
  }

  /** Reading back what toString(radix) prints gives the number again. */
  lemma {:induction false} NatToStringRoundTrip(n: nat, radix: Radix)
    ensures AllDigits(NatToString(n, radix), radix)
    ensures ValueOf(NatToString(n, radix), radix) == n
    decreases n
  {
    if n < radix {
      DigitRoundTrip(n);
      ValueOfSnoc([], DigitChar(n), radix);
      assert [] + [DigitChar(n)] == NatToString(n, radix);
    } else {
      var q, d := n / radix, n % radix;
      DivMod(n, radix);
      var head := NatToString(q, radix);
      NatToStringRoundTrip(q, radix);
      DigitRoundTrip(d);
      ValueOfSnoc(head, DigitChar(d), radix);
      assert NatToString(n, radix) == head + [DigitChar(d)];
      assert ValueOf(head + [DigitChar(d)], radix) == q * radix + d;
      assert n == q * radix + d;
    }
  }

  /** Below radix * radix, the quotient by the radix is a single digit. */
  lemma QuotientDigit(n: nat, radix: Radix)
    requires n < radix * radix
    ensures n / radix < radix
  {
    var q := n / radix;
    DivMod(n, radix);
    if q >= radix {
      assert false;
    }
  }

  /** toString(radix) prints one digit below the radix and two below its square. */
  lemma NatToStringShort(n: nat, radix: Radix)
    requires n < radix * radix
    ensures |NatToString(n, radix)| == if n < radix then 1 else 2
  {
    if n >= radix {
      QuotientDigit(n, radix);
      assert NatToString(n, radix) == NatToString(n / radix, radix) + [DigitChar(n % radix)];
    }
  }

  /** Leading zeros do not change the value of a digit string. */
  lemma {:induction false} LeadingZero(s: string, radix: Radix)
    requires AllDigits(s, radix)
    ensures AllDigits("0" + s, radix)
    ensures ValueOf("0" + s, radix) == ValueOf(s, radix)
    decreases |s|
  {
    if s != [] {
      var t := s[..|s| - 1];
      LeadingZero(t, radix);
      assert ("0" + s)[..|"0" + s| - 1] == "0" + t;
      assert ("0" + s)[|"0" + s| - 1] == s[|s| - 1];
    } else {
      assert ("0" + s)[..0] == [];
    }
  }
}
