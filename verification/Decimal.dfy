/** Decimal text: fmt's %d and %0wd verbs, and strconv.ParseInt in base 10 for 64 bits. */
module Decimal {
  import opened Prelude

  const MIN_INT64: int := -0x8000_0000_0000_0000
  const MAX_INT64: int := 0x7fff_ffff_ffff_ffff

  predicate InInt64(x: int) {
    MIN_INT64 <= x <= MAX_INT64
  }

  predicate IsDigit(c: char) {
    '0' <= c <= '9'
  }

  predicate AllDigits(s: string) {
    forall c <- s :: IsDigit(c)
  }

  function DigitChar(d: nat): (c: char)
    requires d < 10
    ensures IsDigit(c) && DigitValue(c) == d
  {
    '0' + d as char
  }

  function DigitValue(c: char): (d: nat)
    requires IsDigit(c)
    ensures d < 10
  {
    c as int - '0' as int
  }

  function Digits(n: nat): (s: string)
    ensures s != "" && AllDigits(s)
  {
    if n < 10 then [DigitChar(n)] else Digits(n / 10) + [DigitChar(n % 10)]
  }

  function Zeros(k: nat): (s: string)
    ensures |s| == k && AllDigits(s)
  {
    seq(k, _ => '0')
  }

  /** %0wd. The width counts the sign; longer numbers are not cut. */
  function Padded(w: nat, i: int): string {
    var digits := Digits(if i < 0 then -i else i);
    var used := |digits| + if i < 0 then 1 else 0;
    (if i < 0 then "-" else "") + Zeros(if used < w then w - used else 0) + digits
  }

  /** %d. */
  function FormatInt(i: int): string {
    Padded(0, i)
  }

  function Value(s: string): nat
    requires AllDigits(s)
  {
    if s == "" then 0 else 10 * Value(s[..|s| - 1]) + DigitValue(s[|s| - 1])
  }

  /** strconv.ParseInt(s, 10, 64); None for any of its errors. */
  function ParseInt(s: string): Option<int> {
    var signed := s != "" && (s[0] == '-' || s[0] == '+');
    var digits := if signed then s[1..] else s;
    if digits == "" || !AllDigits(digits) then None else
    var v: int := if signed && s[0] == '-' then -(Value(digits) as int) else Value(digits);
    if InInt64(v) then Some(v) else None
  }

  function Pow10(k: nat): (p: nat)
    ensures p >= 1
  {
    if k == 0 then 1 else 10 * Pow10(k - 1)
  }

  lemma {:induction false} ValueDigits(n: nat)
    ensures Value(Digits(n)) == n
  {
    var s := Digits(n);
    if n >= 10 {
      ValueDigits(n / 10);
      assert s[..|s| - 1] == Digits(n / 10);
    }
  }

  lemma {:induction false} ValueZeros(k: nat, s: string)
    requires AllDigits(s)
    ensures AllDigits(Zeros(k) + s) && Value(Zeros(k) + s) == Value(s)
  {
    var t := Zeros(k) + s;
    if s == "" {
      if k > 0 {
        ValueZeros(k - 1, "");
        assert t[..|t| - 1] == Zeros(k - 1) + "";
      }
    } else {
      ValueZeros(k, s[..|s| - 1]);
      assert t[..|t| - 1] == Zeros(k) + s[..|s| - 1];
    }
  }

  lemma TenTimes(v: nat, q: nat)
    ensures v * (10 * q) == 10 * (v * q)
  {
  }

  /** Appending zeros on the right scales by a power of ten. */
  lemma {:induction false} ValueScaled(s: string, k: nat)
    requires AllDigits(s)
    ensures AllDigits(s + Zeros(k)) && Value(s + Zeros(k)) == Value(s) * Pow10(k)
  {
    var t := s + Zeros(k);
    if k == 0 {
      assert t == s;
    } else {
      ValueScaled(s, k - 1);
      assert t[..|t| - 1] == s + Zeros(k - 1);
      assert Value(t) == 10 * Value(s + Zeros(k - 1));
      TenTimes(Value(s), Pow10(k - 1));
    }
  }

  lemma {:induction false} ValueBound(s: string)
    requires AllDigits(s)
    ensures Value(s) < Pow10(|s|)
  {
    if s != "" {
      ValueBound(s[..|s| - 1]);
    }
  }

  lemma {:induction false} DigitsLength(n: nat, w: nat)
    requires n < Pow10(w) && w > 0
    ensures |Digits(n)| <= w
  {
    if n >= 10 {
      DigitsLength(n / 10, w - 1);
    }
  }

  /** A padded non-negative number is all digits and denotes the number; it has exactly the width
      whenever the number fits. */
  lemma PaddedDigits(w: nat, n: nat)
    ensures AllDigits(Padded(w, n)) && Padded(w, n) != "" && Value(Padded(w, n)) == n
    ensures w > 0 && n < Pow10(w) ==> |Padded(w, n)| == w
  {
    hide Digits, Value, Zeros, Pow10;
    var digits := Digits(n);
    var k := if |digits| < w then w - |digits| else 0;
    ValueDigits(n);
    ValueZeros(k, digits);
    assert Padded(w, n) == Zeros(k) + digits;
    if w > 0 && n < Pow10(w) {
      DigitsLength(n, w);
    }
  }

  lemma DivTwice(x: nat, k: nat)
    ensures x / 10 / Pow10(k) == x / (10 * Pow10(k))
  {
    var y := Pow10(k);
    hide Pow10;
    var q, r := x / 10 / y, x / 10 % y;
    assert x / 10 == q * y + r && x == 10 * (x / 10) + x % 10;
    TenTimes(q, y);
    QuotientIs(x, 10 * y, q, 10 * r + x % 10);
  }

  lemma Grows(a: nat, b: nat, y: nat)
    requires a < b
    ensures a * y + y <= b * y
  {
    assert (b - a) * y == b * y - a * y;
    assert (b - a - 1) * y >= 0;
  }

  lemma QuotientIs(x: nat, y: nat, q: nat, r: nat)
    requires y > 0 && x == q * y + r && r < y
    ensures x / y == q
  {
    var d, m := x / y, x % y;
    assert x == d * y + m && m < y;
    if d < q {
      Grows(d, q, y);
    } else if q < d {
      Grows(q, d, y);
    }
  }

  lemma CancelFactor(x: nat, y: nat, z: nat)
    requires y > 0 && z > 0
    ensures y * z > 0 && x * z / (y * z) == x / y
  {
    var q, r := x / y, x % y;
    assert x == q * y + r;
    Grows(r, y, z);
    assert x * z == q * (y * z) + r * z;
    QuotientIs(x * z, y * z, q, r * z);
  }

  lemma {:induction false} PowSum(a: nat, b: nat)
    ensures Pow10(a + b) == Pow10(a) * Pow10(b)
  {
    if a > 0 {
      PowSum(a - 1, b);
    }
  }

  lemma Regroup(a: nat, b: nat, c: nat)
    ensures a * b * c == a * (b * c) && a * b * c == a * c * b
  {
  }

  lemma SameRatio(x: nat, m: nat, n: nat, u: nat, v: nat)
    requires n > 0 && v > 0 && m * v == n * u
    ensures x * m / n == x * u / v
  {
    CancelFactor(x * m, n, v);
    CancelFactor(x * u, v, n);
    Regroup(x, m, v);
    Regroup(x, u, n);
    assert n * v == v * n && n * u == u * n;
  }

  /** Scaling by 10^a and dividing by 10^b depends on the difference only. */
  lemma ScaledAlike(x: nat, a: nat, b: nat, c: nat, d: nat)
    requires a + d == b + c
    ensures x * Pow10(a) / Pow10(b) == x * Pow10(c) / Pow10(d)
  {
    PowSum(a, d);
    PowSum(b, c);
    hide Pow10;
    SameRatio(x, Pow10(a), Pow10(b), Pow10(c), Pow10(d));
  }

  lemma {:induction false} ValueAt(s: string, i: nat)
    requires AllDigits(s) && i < |s|
    ensures s[i] in s && DigitValue(s[i]) == Value(s) / Pow10(|s| - 1 - i) % 10
  {
    var front := s[..|s| - 1];
    if i < |front| {
      ValueAt(front, i);
      DivTwice(Value(s), |front| - 1 - i);
      assert Value(s) / 10 == Value(front);
    }
  }

  /** Every digit of a padded number is the character of its decimal digit, the most significant first. */
  lemma PaddedAt(w: nat, n: nat, i: nat)
    requires n < Pow10(w) && i < w
    ensures |Padded(w, n)| == w
    ensures Padded(w, n)[i] as int == 48 + n / Pow10(w - 1 - i) % 10
  {
    PaddedDigits(w, n);
    ValueAt(Padded(w, n), i);
  }

  lemma ParseIntDigits(s: string)
    requires s != "" && AllDigits(s)
    ensures ParseInt(s) == if Value(s) <= MAX_INT64 then Some(Value(s) as int) else None
    ensures ParseInt("-" + s) == if -MIN_INT64 >= Value(s) then Some(-(Value(s) as int)) else None
  {
    assert IsDigit(s[0]);
    assert ("-" + s)[1..] == s;
  }

  lemma PaddedNegative(w: nat, n: int)
    requires n > 0
    ensures var s := Padded(w, -n);
      |s| > 1 && s[0] == '-' && AllDigits(s[1..]) && Value(s[1..]) == n && s == "-" + s[1..]
  {
    var digits := Digits(n);
    var k := if |digits| + 1 < w then w - |digits| - 1 else 0;
    hide Digits, Value, Pow10, Zeros;
    ValueDigits(n);
    ValueZeros(k, digits);
    assert Padded(w, -n) == "-" + (Zeros(k) + digits);
    hide Padded, AllDigits;
    assert Padded(w, -n)[1..] == Zeros(k) + digits;
  }

  /** ParseInt undoes both verbs on every 64-bit number, at every width. */
  lemma ParseIntPadded(w: nat, i: int)
    requires InInt64(i)
    ensures ParseInt(Padded(w, i)) == Some(i)
  {
    if i < 0 {
      PaddedNegative(w, -i);
      ParseIntDigits(Padded(w, i)[1..]);
    } else {
      PaddedDigits(w, i);
      ParseIntDigits(Padded(w, i));
    }
  }
}
