/** Printing and reading numbers in a base up to sixteen: strconv and the
    kernel's own formats. */
module Numerals {
  import opened Common

  predicate Base(b: nat) {
    2 <= b <= 16
  }

  /** Upper-case digits, as %X prints them. */
  function Digit(d: nat): char
    requires d < 16
  {
    "0123456789ABCDEF"[d]
  }

  /** Digits of either case, as ParseUint reads them. */
  function DigitValue(c: char): Option<nat> {
    if '0' <= c <= '9' then Some(c as nat - '0' as nat)
    else if 'a' <= c <= 'f' then Some(c as nat - 'a' as nat + 10)
    else if 'A' <= c <= 'F' then Some(c as nat - 'A' as nat + 10)
    else None
  }

  lemma DigitRoundTrip(d: nat)
    requires d < 16
    ensures DigitValue(Digit(d)) == Some(d)
  {
    assert d == 0 || d == 1 || d == 2 || d == 3 || d == 4 || d == 5 || d == 6 || d == 7
        || d == 8 || d == 9 || d == 10 || d == 11 || d == 12 || d == 13 || d == 14 || d == 15;
  }

  /** Lower-case digits, as %x prints them. */
  function Nibble(d: nat): char
    requires d < 16
  {
    "0123456789abcdef"[d]
  }

  lemma NibbleRoundTrip(d: nat)
    requires d < 16
    ensures DigitValue(Nibble(d)) == Some(d)
  {
    assert d == 0 || d == 1 || d == 2 || d == 3 || d == 4 || d == 5 || d == 6 || d == 7
        || d == 8 || d == 9 || d == 10 || d == 11 || d == 12 || d == 13 || d == 14 || d == 15;
  }

  function Pow(b: nat, n: nat): nat {
    if n == 0 then 1 else b * Pow(b, n - 1)
  }

  /** The value of a string of digits; None for the empty string, a foreign
      character, or a value that does not fit below the limit. */
  function Parse(b: nat, s: string, limit: nat): Option<nat>
    requires Base(b)
  {
    if s == "" then None
    else
      match Digits(b, s)
      case Some(v) => if v < limit then Some(v) else None
      case None => None
  }

  function Digits(b: nat, s: string): Option<nat>
    requires Base(b)
  {
    if s == "" then Some(0)
    else
      match (Digits(b, s[..|s| - 1]), DigitValue(s[|s| - 1]))
      case (Some(v), Some(d)) => if d < b then Some(b * v + d) else None
      case _ => None
  }

  /** What is not a digit of the base spoils the number. */
  lemma {:induction false} ForeignSpoils(b: nat, s: string, i: nat)
    requires Base(b) && i < |s|
    requires DigitValue(s[i]).None? || DigitValue(s[i]).value >= b
    ensures Digits(b, s).None?
  {
    if i < |s| - 1 {
      ForeignSpoils(b, s[..|s| - 1], i);
    }
  }

  /** Exactly `n` digits, zero-padded, the low ones of the number. */
  function Padded(b: nat, v: nat, n: nat): (s: string)
    requires Base(b)
    ensures |s| == n
  {
    if n == 0 then "" else Padded(b, v / b, n - 1) + [Digit(v % b)]
  }

  /** No more digits than needed, at least one. */
  function Show(b: nat, v: nat): (s: string)
    requires Base(b)
    ensures s != ""
    decreases v
  {
    if v < b then [Digit(v)]
    else
      DivideShrinks(v, b);
      Show(b, v / b) + [Digit(v % b)]
  }

  lemma ProductGrows(b: nat, x: nat, y: nat)
    requires x <= y
    ensures b * x <= b * y
  {
    assert b * y == b * x + b * (y - x);
  }

  lemma DivMod(v: nat, b: nat)
    requires b > 0
    ensures b * (v / b) + v % b == v
  {
  }

  lemma DivideShrinks(v: nat, b: nat)
    requires 2 <= b <= v
    ensures v / b < v
  {
    var q := v / b;
    DivMod(v, b);
    ProductGrows(q, 2, b);
  }

  lemma DivideBounded(v: nat, b: nat, p: nat)
    requires b > 0 && v < b * p
    ensures v / b < p
  {
    var q := v / b;
    DivMod(v, b);
    if p <= q {
      ProductGrows(b, p, q);
    }
  }

  lemma DigitsAppend(b: nat, front: string, v: nat, d: nat)
    requires Base(b) && d < b && Digits(b, front) == Some(v)
    ensures Digits(b, front + [Digit(d)]) == Some(b * v + d)
  {
    DigitRoundTrip(d);
    assert (front + [Digit(d)])[..|front|] == front;
  }

  lemma LastDigit(b: nat, front: string, v: nat)
    requires Base(b) && Digits(b, front) == Some(v / b)
    ensures Digits(b, front + [Digit(v % b)]) == Some(v)
  {
    DigitsAppend(b, front, v / b, v % b);
    DivMod(v, b);
  }

  /** Reading back a padded number that fits its width. */
  lemma {:induction false} PaddedRoundTrip(b: nat, v: nat, n: nat)
    requires Base(b) && v < Pow(b, n)
    ensures Digits(b, Padded(b, v, n)) == Some(v)
  {
    if n > 0 {
      DivideBounded(v, b, Pow(b, n - 1));
      PaddedRoundTrip(b, v / b, n - 1);
      LastDigit(b, Padded(b, v / b, n - 1), v);
    }
  }

  lemma {:induction false} ShowDigits(b: nat, v: nat)
    requires Base(b)
    ensures Digits(b, Show(b, v)) == Some(v)
    decreases v
  {
    if v < b {
      DigitsAppend(b, "", 0, v);
      assert "" + [Digit(v)] == [Digit(v)];
    } else {
      DivideShrinks(v, b);
      ShowDigits(b, v / b);
      LastDigit(b, Show(b, v / b), v);
    }
  }

  /** Reading undoes printing, below the limit. */
  lemma ShowRoundTrip(b: nat, v: nat, limit: nat)
    requires Base(b) && v < limit
    ensures Parse(b, Show(b, v), limit) == Some(v)
  {
    ShowDigits(b, v);
  }

  /** Printed numbers consist of digits. */
  lemma {:induction false} ShowIsDigits(b: nat, v: nat)
    requires Base(b)
    ensures forall i :: 0 <= i < |Show(b, v)| ==> DigitValue(Show(b, v)[i]).Some?
    decreases v
  {
    DigitRoundTrip(v % b);
    if v >= b {
      DivideShrinks(v, b);
      ShowIsDigits(b, v / b);
    }
  }

  lemma ShowInjective(b: nat, v: nat, w: nat)
    requires Base(b) && Show(b, v) == Show(b, w)
    ensures v == w
  {
    ShowDigits(b, v);
    ShowDigits(b, w);
  }
}
