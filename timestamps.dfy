/**
 * The timestamps the backup script writes into file and object names:
 * `datetime.now().strftime("%Y%m%dT%H%M%S")`.  The clock itself is not
 * modelled; a reading of it is a `DateTime` value handed in by the caller.
 */
module Timestamps {
  import opened Strings

  datatype Moment = Moment(year: int, month: int, day: int, hour: int, minute: int, second: int)

  /**
   * The field ranges of a Python `datetime` with a four-digit year (fractions of
   * a second are not part of the name).
   */
  predicate ValidMoment(t: Moment)
  {
    1000 <= t.year <= 9999 && 1 <= t.month <= 12 && 1 <= t.day <= 31 &&
    0 <= t.hour < 24 && 0 <= t.minute < 60 && 0 <= t.second < 60
  }

  type DateTime = t: Moment | ValidMoment(t) witness Moment(1970, 1, 1, 0, 0, 0)

  /** Chronological order, field by field. */
  predicate Before(a: DateTime, b: DateTime)
  {
    a.year < b.year || (a.year == b.year &&
    (a.month < b.month || (a.month == b.month &&
    (a.day < b.day || (a.day == b.day &&
    (a.hour < b.hour || (a.hour == b.hour &&
    (a.minute < b.minute || (a.minute == b.minute &&
    a.second < b.second)))))))))
  }

  function Pow10(k: nat): (r: nat)
    ensures r > 0
  {
    if k == 0 then 1 else 10 * Pow10(k - 1)
  }

  function DigitChar(d: nat): char
    requires d < 10
  {
    (48 + d) as char
  }

  predicate IsDigit(c: char)
  {
    '0' <= c <= '9'
  }

  /** `n` written with exactly `k` decimal digits, zero-padded on the left. */
  function Digits(n: nat, k: nat): (s: string)
    ensures |s| == k
    ensures forall i :: 0 <= i < k ==> IsDigit(s[i])
  {
    if k == 0 then "" else Digits(n / 10, k - 1) + [DigitChar(n % 10)]
  }

  /** `strftime("%Y%m%dT%H%M%S")` */
  function Strftime(t: DateTime): (s: string)
    ensures |s| == 15
    ensures forall i :: 0 <= i < 15 ==> (if i == 8 then s[i] == 'T' else IsDigit(s[i]))
    ensures '/' !in s
  {
    Digits(t.year, 4) + (Digits(t.month, 2) + (Digits(t.day, 2) + ("T" +
      (Digits(t.hour, 2) + (Digits(t.minute, 2) + Digits(t.second, 2))))))
  }

  /**
   * For numbers that fit in `k` digits, the order of the padded strings is the
   * numeric order, and equal strings mean equal numbers.
   */
  lemma {:induction false} DigitsOrder(n: nat, m: nat, k: nat)
    requires n < Pow10(k) && m < Pow10(k)
    ensures LexLess(Digits(n, k), Digits(m, k)) <==> n < m
    ensures Digits(n, k) == Digits(m, k) <==> n == m
  {
    if k == 0 {
      LexLessIrreflexive("");
    } else {
      var dn, dm := Digits(n / 10, k - 1), Digits(m / 10, k - 1);
      var cn, cm := DigitChar(n % 10), DigitChar(m % 10);
      assert n / 10 < Pow10(k - 1) && m / 10 < Pow10(k - 1);
      DigitsOrder(n / 10, m / 10, k - 1);
      LexLessSplit(dn, [cn], dm, [cm]);
      ConcatEq(dn, [cn], dm, [cm]);
      assert LexLess([cn], [cm]) <==> cn < cm by {
        assert [cn][1..] == [] && [cm][1..] == [];
      }
      assert n == 10 * (n / 10) + n % 10 && m == 10 * (m / 10) + m % 10;
    }
  }

  /** Comparing one field and then the rest, for fixed-width fields. */
  lemma FieldThenRest(x: nat, y: nat, k: nat, rx: string, ry: string)
    requires x < Pow10(k) && y < Pow10(k)
    ensures LexLess(Digits(x, k) + rx, Digits(y, k) + ry) <==> x < y || (x == y && LexLess(rx, ry))
    ensures Digits(x, k) + rx == Digits(y, k) + ry <==> x == y && rx == ry
  {
    DigitsOrder(x, y, k);
    LexLessSplit(Digits(x, k), rx, Digits(y, k), ry);
    ConcatEq(Digits(x, k), rx, Digits(y, k), ry);
  }

  /**
   * Names stamped with this format sort chronologically: comparing two
   * stamps as strings is comparing the two moments, and equal stamps mean
   * equal moments (to the second).
   */
  lemma StrftimeOrder(a: DateTime, b: DateTime)
    ensures LexLess(Strftime(a), Strftime(b)) <==> Before(a, b)
    ensures Strftime(a) == Strftime(b) <==> a == b
  {
    var s5a, s5b := Digits(a.minute, 2) + Digits(a.second, 2), Digits(b.minute, 2) + Digits(b.second, 2);
    FieldThenRest(a.minute, b.minute, 2, Digits(a.second, 2), Digits(b.second, 2));
    DigitsOrder(a.second, b.second, 2);
    var s4a, s4b := Digits(a.hour, 2) + s5a, Digits(b.hour, 2) + s5b;
    FieldThenRest(a.hour, b.hour, 2, s5a, s5b);
    var s3a, s3b := "T" + s4a, "T" + s4b;
    LexLessCommonPrefix("T", s4a, s4b);
    var s2a, s2b := Digits(a.day, 2) + s3a, Digits(b.day, 2) + s3b;
    FieldThenRest(a.day, b.day, 2, s3a, s3b);
    var s1a, s1b := Digits(a.month, 2) + s2a, Digits(b.month, 2) + s2b;
    FieldThenRest(a.month, b.month, 2, s2a, s2b);
    FieldThenRest(a.year, b.year, 4, s1a, s1b);
    assert Pow10(4) == 10000;
  }
}
