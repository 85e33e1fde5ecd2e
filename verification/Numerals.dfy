/** common/utils.go: comparing decimal strings of any length without reading them as numbers. */
module Numerals {

  import opened Model

  function CompareNumericalString(a: string, b: string): int {
    if |a| > |b| then 1 else if |a| < |b| then -1 else Compare(a, b)
  }

  ghost predicate Digits(s: string) {
    forall i | 0 <= i < |s| :: '0' <= s[i] <= '9'
  }

  ghost predicate Numeral(s: string) {
    Digits(s) && |s| > 0 && (|s| > 1 ==> s[0] != '0')
  }

  ghost function Power10(n: nat): nat {
    if n == 0 then 1 else 10 * Power10(n - 1)
  }

  /** The number a digit string denotes. */
  ghost function Number(s: string): int
    requires Digits(s)
  {
    if s == [] then 0 else (s[0] as int - '0' as int) * Power10(|s| - 1) + Number(s[1..])
  }

  ghost function Sign(x: int): int {
    if x > 0 then 1 else if x < 0 then -1 else 0
  }

  lemma {:induction false} Bounds(s: string)
    requires Digits(s)
    ensures 0 <= Number(s) < Power10(|s|)
    ensures |s| > 0 && s[0] != '0' ==> Number(s) >= Power10(|s| - 1)
  {
    if s != [] {
      Bounds(s[1..]);
      LeadingDigit(s[0] as int - '0' as int, Power10(|s| - 1));
    }
  }

  lemma LeadingDigit(d: int, p: nat)
    requires 0 <= d <= 9
    ensures 0 <= d * p <= 9 * p
    ensures d >= 1 ==> d * p >= p
  {
  }

  lemma {:induction false} Increasing(m: nat, n: nat)
    requires m <= n
    ensures Power10(m) <= Power10(n)
  {
    if m < n { Increasing(m, n - 1); }
  }

  lemma {:induction false} SameLength(a: string, b: string)
    requires Digits(a) && Digits(b) && |a| == |b|
    ensures Compare(a, b) == Sign(Number(a) - Number(b))
  {
    if a != [] {
      var p, da, db := Power10(|a| - 1), a[0] as int - '0' as int, b[0] as int - '0' as int;
      if da == db {
        SameLength(a[1..], b[1..]);
      } else {
        Bounds(a[1..]);
        Bounds(b[1..]);
        HeadDecides(da, db, p, Number(a[1..]), Number(b[1..]));
      }
    }
  }

  lemma HeadDecides(da: int, db: int, p: nat, ra: int, rb: int)
    requires da != db && 0 <= ra < p && 0 <= rb < p
    ensures Sign(da * p + ra - (db * p + rb)) == if da < db then -1 else 1
  {
    if da < db {
      Apart(da, db, p);
    } else {
      Apart(db, da, p);
    }
  }

  lemma Apart(d: int, e: int, p: nat)
    requires d < e
    ensures d * p + p <= e * p
    decreases e - d
  {
    assert e * p == (e - 1) * p + p;
    if d < e - 1 { Apart(d, e - 1, p); }
  }

  lemma LongerIsLarger(a: string, b: string)
    requires Numeral(a) && Numeral(b) && |a| > |b|
    ensures Number(a) > Number(b)
  {
    Bounds(a);
    Bounds(b);
    Increasing(|b|, |a| - 1);
  }

  /** For decimal strings without leading zeros, of any length, the comparison has the sign of the
      difference of the numbers they denote. */
  lemma CompareIsNumeric(a: string, b: string)
    requires Numeral(a) && Numeral(b)
    ensures CompareNumericalString(a, b) == Sign(Number(a) - Number(b))
  {
    if |a| > |b| {
      LongerIsLarger(a, b);
    } else if |a| < |b| {
      LongerIsLarger(b, a);
    } else {
      SameLength(a, b);
    }
  }
}
