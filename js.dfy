/** The JavaScript built-ins the three games rely on, stated over unbounded integers.
    Every game index, size and counter in the source is a small non-negative integer,
    so no wrap-around is involved; where JavaScript and Dafny arithmetic differ
    (floor division, the sign of `%`) the difference is written out here. */
module Js {

  /** A value that may be absent (`null` from `localStorage.getItem`, `undefined`). */
  datatype Option<T> = None | Some(value: T)

  /** `Math.floor(a / b)` for a positive divisor, where Dafny's Euclidean division
      rounds down as well. */
  function FloorDiv(a: int, b: int): int
    requires b > 0
  {
    a / b
  }

  /** JavaScript's `a % b` for a positive divisor: the remainder carries the sign of `a`. */
  function Rem(a: int, b: int): (m: int)
    requires b > 0
    ensures a >= 0 ==> 0 <= m < b && m == a % b
    ensures a < 0 ==> -b < m <= 0 && m == -((-a) % b)
  {
    if a >= 0 then a % b else -((-a) % b)
  }

  /** `Math.abs`. */
  function Abs(x: int): (y: int)
    ensures y >= 0 && (y == x || y == -x)
  {
    if x < 0 then -x else x
  }

  /** `Array.prototype.indexOf`: the first position holding `v`, or -1. */
  function IndexOf<T(==)>(s: seq<T>, v: T): (k: int)
    ensures -1 <= k < |s|
    ensures k == -1 <==> v !in s
    ensures k >= 0 ==> s[k] == v && forall j :: 0 <= j < k ==> s[j] != v
  {
    if |s| == 0 then -1
    else if s[0] == v then 0
    else
      var k := IndexOf(s[1..], v);
      if k == -1 then -1 else k + 1
  }

  /** A decimal digit character. */
  function DigitChar(d: int): (ch: char)
    requires 0 <= d < 10
    ensures '0' <= ch <= '9' && ch as int - '0' as int == d
  {
    ('0' as int + d) as char
  }

  predicate IsDigits(s: string)
  {
    forall k :: 0 <= k < |s| ==> '0' <= s[k] <= '9'
  }

  /** `String(n)` for a non-negative integer: its decimal digits, without leading zeros. */
  function Decimal(n: nat): (s: string)
    ensures |s| >= 1 && IsDigits(s)
    ensures n < 10 <==> |s| == 1
    ensures |s| > 1 ==> s[0] != '0'
  {
    if n < 10 then [DigitChar(n)] else Decimal(n / 10) + [DigitChar(n % 10)]
  }

  /** Numbers below one hundred take at most two digits. */
  lemma TwoDigits(n: nat)
    requires n < 100
    ensures |Decimal(n)| <= 2
  {
    if n >= 10 {
      assert |Decimal(n / 10)| == 1;
    }
  }

  /** The number a string of decimal digits denotes. */
  function DigitsValue(s: string): nat
    requires IsDigits(s)
  {
    if |s| == 0 then 0 else DigitsValue(s[..|s| - 1]) * 10 + (s[|s| - 1] as int - '0' as int)
  }

  /** Reading back what `String(n)` printed gives `n`. */
  lemma {:induction false} DecimalRoundTrip(n: nat)
    ensures DigitsValue(Decimal(n)) == n
  {
    var s := Decimal(n);
    if n >= 10 {
      DecimalRoundTrip(n / 10);
      assert s[..|s| - 1] == Decimal(n / 10);
    }
  }

  /** `s.padStart(width, "0")`: prefix zeros up to `width` characters; never truncates. */
  function PadZero(s: string, width: nat): (p: string)
    ensures |p| == if |s| >= width then |s| else width
    ensures p[|p| - |s|..] == s
    ensures forall k :: 0 <= k < |p| - |s| ==> p[k] == '0'
  {
    if |s| >= width then s
    else
      var z := seq(width - |s|, _ => '0');
      assert (z + s)[|z|..] == s;
      z + s
  }

  /** Leading zeros do not change the value of a digit string. */
  lemma {:induction false} LeadingZerosValue(z: nat, s: string)
    requires IsDigits(s)
    ensures IsDigits(seq(z, _ => '0') + s)
    ensures DigitsValue(seq(z, _ => '0') + s) == DigitsValue(s)
  {
    var p := seq(z, _ => '0') + s;
    if |s| == 0 {
      if z > 0 {
        assert p[..|p| - 1] == seq(z - 1, _ => '0');
        LeadingZerosValue(z - 1, s);
        assert seq(z - 1, _ => '0') + s == seq(z - 1, _ => '0');
      }
    } else {
      assert p[..|p| - 1] == seq(z, _ => '0') + s[..|s| - 1];
      LeadingZerosValue(z, s[..|s| - 1]);
    }
  }

  /** The value of a zero-padded decimal is the number itself. */
  lemma PaddedDecimalValue(n: nat, width: nat)
    ensures IsDigits(PadZero(Decimal(n), width))
    ensures DigitsValue(PadZero(Decimal(n), width)) == n
  {
    var s := Decimal(n);
    var p := PadZero(s, width);
    var z := |p| - |s|;
    assert p == seq(z, _ => '0') + s by {
      assert p[..z] == seq(z, _ => '0');
      assert p == p[..z] + p[z..];
    }
    LeadingZerosValue(z, s);
    DecimalRoundTrip(n);
  }
}
