/** The `YYYY-MM-DD` dates that name the result archives, and the fact that
    comparing two such names as strings compares them as calendar dates. */
module Dates {
  import opened Text

  predicate IsDigit(c: char) {
    '0' <= c <= '9'
  }

  predicate AllDigits(s: string) {
    forall i :: 0 <= i < |s| ==> IsDigit(s[i])
  }

  function Pow10(n: nat): (p: nat)
    ensures p >= 1
  {
    if n == 0 then 1 else 10 * Pow10(n - 1)
  }

  /** The decimal value of a digit string. */
  function Number(s: string): nat
    requires AllDigits(s)
  {
    if s == [] then 0 else (s[0] as int - '0' as int) * Pow10(|s| - 1) + Number(s[1..])
  }

  predicate HasDateShape(s: string) {
    |s| == 10 && AllDigits(s[..4]) && s[4] == '-' && AllDigits(s[5..7]) && s[7] == '-' && AllDigits(s[8..])
  }

  function Year(s: string): nat requires HasDateShape(s) { Number(s[..4]) }
  function Month(s: string): nat requires HasDateShape(s) { Number(s[5..7]) }
  function Day(s: string): nat requires HasDateShape(s) { Number(s[8..]) }

  predicate IsLeapYear(y: int) {
    y % 4 == 0 && (y % 100 != 0 || y % 400 == 0)
  }

  function DaysInMonth(y: int, m: int): int {
    if m == 2 then (if IsLeapYear(y) then 29 else 28)
    else if m == 4 || m == 6 || m == 9 || m == 11 then 30
    else 31
  }

  /** `datetime.strptime(s, "%Y-%m-%d")` succeeds: the zero-padded shape and a
      real calendar day (year 1 or later). */
  predicate IsValidDate(s: string) {
    HasDateShape(s) && Year(s) >= 1 && 1 <= Month(s) <= 12 && 1 <= Day(s) <= DaysInMonth(Year(s), Month(s))
  }

  /** Calendar order on (year, month, day). */
  predicate Before(a: string, b: string)
    requires HasDateShape(a) && HasDateShape(b)
  {
    Year(a) < Year(b) ||
    (Year(a) == Year(b) && (Month(a) < Month(b) || (Month(a) == Month(b) && Day(a) < Day(b))))
  }

  lemma {:induction false} NumberBound(s: string)
    requires AllDigits(s)
    ensures Number(s) < Pow10(|s|)
  {
    if s != [] {
      NumberBound(s[1..]);
      var d := s[0] as int - '0' as int;
      var p := Pow10(|s| - 1);
      assert d <= 9;
      LeadingDigitDecides(d, 10, p, Number(s[1..]), 0);
    }
  }

  lemma {:induction false} MulAtLeast(k: nat, p: nat)
    requires k >= 1
    ensures k * p >= p
  {
    if k > 1 {
      MulAtLeast(k - 1, p);
      assert k * p == (k - 1) * p + p;
    }
  }

  lemma LeadingDigitDecides(dx: int, dy: int, p: nat, nx: nat, ny: nat)
    requires 0 <= dx < dy && nx < p
    ensures dx * p + nx < dy * p + ny
  {
    var k := dy - dx;
    MulAtLeast(k, p);
    assert dy * p == dx * p + k * p;
  }

  /** For digit strings of one length, string order is numeric order. */
  lemma {:induction false} DigitsLess(x: string, y: string)
    requires |x| == |y| && AllDigits(x) && AllDigits(y)
    ensures Less(x, y) <==> Number(x) < Number(y)
  {
    if x != [] {
      var dx := x[0] as int - '0' as int;
      var dy := y[0] as int - '0' as int;
      var p := Pow10(|x| - 1);
      assert Number(x) == dx * p + Number(x[1..]);
      assert Number(y) == dy * p + Number(y[1..]);
      NumberBound(x[1..]);
      NumberBound(y[1..]);
      if dx < dy {
        LeadingDigitDecides(dx, dy, p, Number(x[1..]), Number(y[1..]));
      } else if dy < dx {
        LeadingDigitDecides(dy, dx, p, Number(y[1..]), Number(x[1..]));
      } else {
        DigitsLess(x[1..], y[1..]);
      }
    }
  }

  /** Equal-length prefixes are compared first. */
  lemma {:induction false} LessConcat(p: string, q: string, p': string, q': string)
    requires |p| == |p'|
    ensures Less(p + q, p' + q') <==> Less(p, p') || (p == p' && Less(q, q'))
  {
    if p == [] {
      assert p + q == q && p' + q' == q';
    } else {
      assert (p + q)[1..] == p[1..] + q && (p' + q')[1..] == p'[1..] + q';
      LessConcat(p[1..], q, p'[1..], q');
      if p[0] == p'[0] && p[1..] == p'[1..] {
        assert p == [p[0]] + p[1..] && p' == [p'[0]] + p'[1..];
      }
      LessIrreflexive(p);
    }
  }

  /** Two digit strings of one length are equal exactly when their values are. */
  lemma DigitsEqual(x: string, y: string)
    requires |x| == |y| && AllDigits(x) && AllDigits(y)
    ensures x == y <==> Number(x) == Number(y)
  {
    if x != y {
      LessTotal(x, y);
      DigitsLess(x, y);
      DigitsLess(y, x);
    }
  }

  /** Comparing two archive dates as strings, as `max` does, orders them by calendar date. */
  lemma DateStringOrder(a: string, b: string)
    requires HasDateShape(a) && HasDateShape(b)
    ensures Less(a, b) <==> Before(a, b)
  {
    assert a == a[..4] + (a[4..5] + (a[5..7] + (a[7..8] + a[8..])));
    assert b == b[..4] + (b[4..5] + (b[5..7] + (b[7..8] + b[8..])));
    assert a[4..5] == b[4..5] == "-" && a[7..8] == b[7..8] == "-";
    LessConcat(a[..4], a[4..5] + (a[5..7] + (a[7..8] + a[8..])), b[..4], b[4..5] + (b[5..7] + (b[7..8] + b[8..])));
    LessConcat(a[4..5], a[5..7] + (a[7..8] + a[8..]), b[4..5], b[5..7] + (b[7..8] + b[8..]));
    LessConcat(a[5..7], a[7..8] + a[8..], b[5..7], b[7..8] + b[8..]);
    LessConcat(a[7..8], a[8..], b[7..8], b[8..]);
    LessIrreflexive("-");
    DigitsLess(a[..4], b[..4]);
    DigitsLess(a[5..7], b[5..7]);
    DigitsLess(a[8..], b[8..]);
    DigitsEqual(a[..4], b[..4]);
    DigitsEqual(a[5..7], b[5..7]);
  }
}
