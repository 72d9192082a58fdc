/** MariaDB TIME as an Arrow duration: parsing, formatting, and the choice of unit. Durations are signed
    64-bit nanosecond counts; every Go operation that can overflow is written with its wrap-around. */
module TimeCodec {
  import opened Prelude
  import opened Decimal

  const TWO64: int := 0x1_0000_0000_0000_0000
  const MICROSECOND: int := 1_000
  const SECOND: int := 1_000_000_000
  const MINUTE: int := 60_000_000_000
  const HOUR: int := 3_600_000_000_000
  const LIMIT: int := 839 * HOUR

  function Wrap(x: int): (w: int)
    ensures InInt64(w)
    ensures InInt64(x) ==> w == x
  {
    if InInt64(x) then x else (x - MIN_INT64) % TWO64 + MIN_INT64
  }

  /** Go's integer division, which truncates toward zero. */
  function Quo(a: int, b: int): int
    requires b > 0
  {
    if a >= 0 then a / b else -(-a / b)
  }

  function Rem(a: int, b: int): int
    requires b > 0
  {
    a - Quo(a, b) * b
  }

  datatype Unit = Second | Millisecond | Microsecond | Nanosecond

  function Multiplier(u: Unit): (m: int)
    ensures m > 0
  {
    match u
    case Second => 1_000_000_000
    case Millisecond => 1_000_000
    case Microsecond => 1_000
    case Nanosecond => 1
  }

  /** How many of a unit make a second. */
  function PerSecond(u: Unit): (m: int)
    ensures m > 0
  {
    match u
    case Second => 1
    case Millisecond => 1_000
    case Microsecond => 1_000_000
    case Nanosecond => 1_000_000_000
  }

  // ---------- Formatting: an Arrow duration as TIME text ----------

  function ClockText(hours: int, minutes: int, seconds: int): string {
    Padded(2, hours) + [':'] + (Padded(2, minutes) + [':'] + Padded(2, seconds))
  }

  function FormatDuration(d: int): string
    requires InInt64(d)
  {
    var magnitude := if d < 0 then Wrap(-d) else d;
    var belowHour := Rem(magnitude, HOUR);
    var belowMinute := Rem(belowHour, MINUTE);
    var micros := Quo(Rem(belowMinute, SECOND), MICROSECOND);
    (if d < 0 then "-" else "") +
    (ClockText(Quo(magnitude, HOUR), Quo(belowHour, MINUTE), Quo(belowMinute, SECOND)) + (['.'] + Padded(6, micros)))
  }

  /** ConvertArrowToGo on a duration array. */
  function ArrowToText(value: int, u: Unit): string
    requires InInt64(value)
  {
    FormatDuration(Wrap(value * Multiplier(u)))
  }

  // ---------- Parsing ----------

  function Split(s: string, sep: char): seq<string>
    decreases |s|
  {
    var i := Find(s, sep);
    if i == |s| then [s] else [s[..i]] + Split(s[i + 1..], sep)
  }

  /** The numeric part of the parser, on fields that strconv has already read. */
  function Assemble(negative: bool, h: Option<int>, m: Option<int>, s: Option<int>, us: Option<int>): Option<int> {
    if h.None? || m.None? || s.None? || us.None? || h.value > 838 || m.value > 59 || s.value > 59 then None else
    var total := Wrap(Wrap(Wrap(Wrap(h.value * HOUR) + Wrap(m.value * MINUTE)) + Wrap(s.value * SECOND))
                      + Wrap(us.value * MICROSECOND));
    Some(Wrap(if negative then -total else total))
  }

  function Micros(fraction: string): Option<int> {
    var cut := if |fraction| > 6 then fraction[..6] else fraction;
    ParseInt(cut + Zeros(6 - |cut|))
  }

  /** parseMariaDBDuration; None for its error. */
  function ParseDuration(text: string): Option<int> {
    if text != "" && text[0] == '-' then ParseUnsigned(true, text[1..]) else ParseUnsigned(false, text)
  }

  function ParseUnsigned(negative: bool, body: string): Option<int> {
    var dot := Find(body, '.');
    var clock := Split(body[..dot], ':');
    if |clock| != 3 then None else
    Assemble(negative, ParseInt(clock[0]), ParseInt(clock[1]), ParseInt(clock[2]),
             if dot == |body| then Some(0) else Micros(body[dot + 1..]))
  }

  /** What the inserter stores for a TIME text in a column of unit u. */
  function StoredValue(text: string, u: Unit): Option<int> {
    var d := ParseDuration(text);
    if d.None? then None else Some(Quo(d.value, Multiplier(u)))
  }

  datatype SqlValue = Null | Text(text: string) | Other

  class DurationInserter {
    const unit: Unit
    var values: seq<Option<int>>

    constructor (unit: Unit)
      ensures this.unit == unit && values == []
    {
      this.unit := unit;
      values := [];
    }

    /** One slot per accepted value, nothing on an error. */
    method AppendValue(v: SqlValue) returns (ok: bool)
      modifies this
      ensures ok <==> v.Null? || (v.Text? && ParseDuration(v.text).Some?)
      ensures values == old(values) + (if !ok then [] else if v.Null? then [None] else [StoredValue(v.text, unit)])
    {
      match v {
        case Null =>
          values := values + [None];
          ok := true;
        case Other =>
          ok := false;
        case Text(text) =>
          var d := ParseDuration(text);
          ok := d.Some?;
          if ok {
            values := values + [Some(Quo(d.value, Multiplier(unit)))];
          }
      }
    }
  }

  // ---------- Parsing what the formatter writes ----------

  predicate Numeric(s: string) {
    forall c <- s :: IsDigit(c) || c == '-'
  }

  lemma PaddedNumeric(w: nat, i: int)
    ensures Numeric(Padded(w, i))
    ensures i < 0 ==> Padded(w, i)[0] == '-'
    ensures i >= 0 ==> IsDigit(Padded(w, i)[0])
  {
    if i >= 0 {
      PaddedDigits(w, i);
      assert Padded(w, i)[0] in Padded(w, i);
    }
  }

  lemma SplitLast(s: string, sep: char)
    requires sep !in s
    ensures Find(s, sep) == |s| && Split(s, sep) == [s]
  {
  }

  lemma SplitNext(a: string, sep: char, b: string)
    requires sep !in a
    ensures Split(a + [sep] + b, sep) == [a] + Split(b, sep)
  {
    var s := a + [sep] + b;
    FindAt(a, sep, b);
    assert s[..|a|] == a && s[|a| + 1..] == b;
  }

  lemma SplitClock(h: string, m: string, s: string)
    requires Numeric(h) && Numeric(m) && Numeric(s)
    ensures Split(h + [':'] + (m + [':'] + s), ':') == [h, m, s]
    ensures '.' !in h + [':'] + (m + [':'] + s)
  {
    hide Split;
    SplitNext(h, ':', m + [':'] + s);
    SplitNext(m, ':', s);
    SplitLast(s, ':');
  }

  /** A clock text splits into its fields, whatever their values. */
  lemma ClockFields(h: int, m: int, s: int)
    requires InInt64(h) && InInt64(m) && InInt64(s)
    ensures var clock := Split(ClockText(h, m, s), ':');
      && |clock| == 3 && '.' !in ClockText(h, m, s)
      && ParseInt(clock[0]) == Some(h) && ParseInt(clock[1]) == Some(m) && ParseInt(clock[2]) == Some(s)
    ensures ClockText(h, m, s) != "" && (h >= 0 ==> IsDigit(ClockText(h, m, s)[0]))
  {
    PaddedNumeric(2, h);
    PaddedNumeric(2, m);
    PaddedNumeric(2, s);
    ParseIntPadded(2, h);
    ParseIntPadded(2, m);
    ParseIntPadded(2, s);
    SplitClock(Padded(2, h), Padded(2, m), Padded(2, s));
  }

  function FractionPart(fraction: Option<string>): string {
    if fraction.Some? then ['.'] + fraction.value else ""
  }

  lemma FindDot(clock: string, fraction: Option<string>)
    requires '.' !in clock
    ensures var body := clock + FractionPart(fraction);
      && body[..Find(body, '.')] == clock
      && (Find(body, '.') == |body| <==> fraction.None?)
      && (fraction.Some? ==> body[Find(body, '.') + 1..] == fraction.value)
  {
    var body := clock + FractionPart(fraction);
    if fraction.Some? {
      assert body == clock + ['.'] + fraction.value;
      FindAt(clock, '.', fraction.value);
    } else {
      assert body == clock;
      SplitLast(body, '.');
    }
  }

  /** The parser recovers the fields of any sign, clock and fraction, whatever their values. */
  lemma ParseFields(negative: bool, h: int, m: int, s: int, fraction: Option<string>)
    requires InInt64(h) && InInt64(m) && InInt64(s)
    requires negative || h >= 0
    ensures ParseDuration((if negative then "-" else "") + (ClockText(h, m, s) + FractionPart(fraction)))
      == Assemble(negative, Some(h), Some(m), Some(s), if fraction.Some? then Micros(fraction.value) else Some(0))
  {
    hide ParseUnsigned, ClockText, FractionPart, Assemble, Micros;
    var body := ClockText(h, m, s) + FractionPart(fraction);
    ParseBody(negative, h, m, s, fraction);
    ClockFields(h, m, s);
    assert body[0] == ClockText(h, m, s)[0];
    assert ("-" + body)[1..] == body && "" + body == body;
  }

  lemma ParseBody(negative: bool, h: int, m: int, s: int, fraction: Option<string>)
    requires InInt64(h) && InInt64(m) && InInt64(s)
    ensures ParseUnsigned(negative, ClockText(h, m, s) + FractionPart(fraction))
      == Assemble(negative, Some(h), Some(m), Some(s), if fraction.Some? then Micros(fraction.value) else Some(0))
  {
    hide ClockText, Assemble, Micros, ParseInt, Split, Find, FractionPart;
    ClockFields(h, m, s);
    FindDot(ClockText(h, m, s), fraction);
  }

  /** What the parser assembles from the fields the formatter takes out of a magnitude. */
  function Reassembled(negative: bool, a: int): Option<int>
    requires InInt64(a)
  {
    var b := Rem(a, HOUR);
    var c := Rem(b, MINUTE);
    Assemble(negative, Some(Quo(a, HOUR)), Some(Quo(b, MINUTE)), Some(Quo(c, SECOND)),
             Micros(Padded(6, Quo(Rem(c, SECOND), MICROSECOND))))
  }

  lemma ParseFormatted(d: int)
    requires InInt64(d)
    ensures ParseDuration(FormatDuration(d)) == Reassembled(d < 0, if d < 0 then Wrap(-d) else d)
  {
    var a := if d < 0 then Wrap(-d) else d;
    var b := Rem(a, HOUR);
    var c := Rem(b, MINUTE);
    var fraction := Padded(6, Quo(Rem(c, SECOND), MICROSECOND));
    ParseFields(d < 0, Quo(a, HOUR), Quo(b, MINUTE), Quo(c, SECOND), Some(fraction));
    assert FormatDuration(d) == (if d < 0 then "-" else "") +
      (ClockText(Quo(a, HOUR), Quo(b, MINUTE), Quo(c, SECOND)) + FractionPart(Some(fraction)));
  }

  lemma MicrosPadded(us: nat)
    requires us < 1_000_000
    ensures Micros(Padded(6, us)) == Some(us as int)
  {
    PaddedDigits(6, us);
    assert Pow10(6) == 1_000_000;
    assert Padded(6, us) + Zeros(0) == Padded(6, us);
    ParseIntPadded(6, us);
  }

  lemma MinimumFields()
    ensures Quo(MIN_INT64, HOUR) == -2562047
    ensures var b := Rem(MIN_INT64, HOUR);
      && b == -2_836_854_775_808 && Quo(b, MINUTE) == -47
      && Rem(b, MINUTE) == -16_854_775_808 && Quo(Rem(b, MINUTE), SECOND) == -16
      && Rem(Rem(b, MINUTE), SECOND) == -854_775_808 && Quo(-854_775_808, MICROSECOND) == -854_775
  {
  }

  lemma MinimumMicros()
    ensures Micros(Padded(6, -854_775)) == Some(-85_477)
  {
    assert Digits(8) == "8" && Digits(85) == "85" && Digits(854) == "854";
    assert Digits(8547) == "8547" && Digits(85477) == "85477" && Digits(854775) == "854775";
    assert Zeros(0) == "" && "-" + "" + "854775" == "-854775";
    var f := Padded(6, -854_775);
    assert f == "-854775" && f[..6] + Zeros(0) == "-85477";
    MinimumFraction();
  }

  lemma MinimumFraction()
    ensures ParseInt("-85477") == Some(-85_477)
  {
    var s := "-85477";
    assert s[1..] == "85477";
    assert "85477"[..4] == "8547" && "8547"[..3] == "854" && "854"[..2] == "85" && "85"[..1] == "8" && "8"[..0] == "";
    assert Value("8") == 8;
    assert Value("85") == 85;
    assert Value("854") == 854;
    assert Value("8547") == 8547;
  }

  /** The one 64-bit count whose negation wraps is written with a sign in every field; the text is accepted, and the
      signs cancel: a negative duration comes back positive. */
  lemma MinimumFlipsSign()
    ensures ParseDuration(FormatDuration(MIN_INT64)) == Some(9_223_372_036_085_477_000)
  {
    ParseFormatted(MIN_INT64);
    MinimumFields();
    assert Wrap(-MIN_INT64) == MIN_INT64;
    MinimumMicros();
    MinimumTotal();
  }

  lemma MinimumTotal()
    ensures Assemble(true, Some(-2562047), Some(-47), Some(-16), Some(-85_477)) == Some(9_223_372_036_085_477_000)
  {
  }

  /** Every product and every partial sum of the parser stays within 64 bits, and so does the negated total. */
  predicate NothingWraps(h: int, m: int, s: int, us: int) {
    && InInt64(h * HOUR) && InInt64(m * MINUTE) && InInt64(s * SECOND) && InInt64(us * MICROSECOND)
    && InInt64(h * HOUR + m * MINUTE) && InInt64(h * HOUR + m * MINUTE + s * SECOND)
    && InInt64(h * HOUR + m * MINUTE + s * SECOND + us * MICROSECOND)
    && InInt64(-(h * HOUR + m * MINUTE + s * SECOND + us * MICROSECOND))
  }

  /** On the fields of a duration nothing wraps: the sum is the magnitude cut to microseconds. From 839 hours on the
      text is refused before anything is multiplied. */
  lemma AssembleExact(negative: bool, a: nat)
    requires a <= MAX_INT64
    ensures var c := a % HOUR % MINUTE;
      a < LIMIT ==> NothingWraps(a / HOUR, a % HOUR / MINUTE, c / SECOND, c % SECOND / MICROSECOND)
    ensures var c := a % HOUR % MINUTE;
      Assemble(negative, Some(a / HOUR), Some(a % HOUR / MINUTE), Some(c / SECOND), Some(c % SECOND / MICROSECOND))
      == if a < LIMIT then Some(if negative then -(a / MICROSECOND * MICROSECOND) else a / MICROSECOND * MICROSECOND)
         else None
  {
    var h, m := a / HOUR, a % HOUR / MINUTE;
    var c := a % HOUR % MINUTE;
    var s, us := c / SECOND, c % SECOND / MICROSECOND;
    assert a == h * HOUR + m * MINUTE + s * SECOND + c % SECOND;
    assert a / MICROSECOND * MICROSECOND == h * HOUR + m * MINUTE + s * SECOND + us * MICROSECOND;
    assert h > 838 <==> a >= LIMIT;
  }

  /** Formatting and parsing back truncates to microseconds exactly when the duration is below 839 hours:
      an equivalence over all 64-bit durations. */
  lemma DurationRoundTrip(d: int)
    requires InInt64(d)
    ensures ParseDuration(FormatDuration(d)) == Some(Quo(d, MICROSECOND) * MICROSECOND) <==> -LIMIT < d < LIMIT
    ensures d != MIN_INT64 && !(-LIMIT < d < LIMIT) ==> ParseDuration(FormatDuration(d)) == None
  {
    if d == MIN_INT64 {
      MinimumFlipsSign();
    } else {
      ParseOrdinary(d);
    }
  }

  lemma ParseOrdinary(d: int)
    requires InInt64(d) && d != MIN_INT64
    ensures ParseDuration(FormatDuration(d)) ==
      if -LIMIT < d < LIMIT then Some(Quo(d, MICROSECOND) * MICROSECOND) else None
  {
    hide ParseDuration, FormatDuration, Reassembled, Quo;
    ParseFormatted(d);
    ReassembledExact(d < 0, if d < 0 then -d else d);
    SignedTruncation(d);
  }

  lemma ReassembledExact(negative: bool, a: nat)
    requires a <= MAX_INT64
    ensures Reassembled(negative, a)
      == if a < LIMIT then Some(if negative then -(a / MICROSECOND * MICROSECOND) else a / MICROSECOND * MICROSECOND)
         else None
  {
    MagnitudeFields(a);
    MicrosPadded(a % HOUR % MINUTE % SECOND / MICROSECOND);
    AssembleExact(negative, a);
  }

  lemma SignedTruncation(d: int)
    ensures Quo(d, MICROSECOND) * MICROSECOND == if d < 0 then -(-d / MICROSECOND * MICROSECOND) else d / MICROSECOND * MICROSECOND
  {
  }

  lemma MagnitudeFields(a: nat)
    ensures var b := Rem(a, HOUR);
      && Quo(a, HOUR) == a / HOUR && b == a % HOUR
      && Quo(b, MINUTE) == a % HOUR / MINUTE && Rem(b, MINUTE) == a % HOUR % MINUTE
      && Quo(Rem(b, MINUTE), SECOND) == a % HOUR % MINUTE / SECOND
      && Quo(Rem(Rem(b, MINUTE), SECOND), MICROSECOND) == a % HOUR % MINUTE % SECOND / MICROSECOND
  {
  }

  lemma WrapCongruent(x: int) returns (k: int)
    ensures Wrap(x) == x + k * TWO64
  {
    k := if InInt64(x) then 0 else -((x - MIN_INT64) / TWO64);
  }

  lemma LimitInUnit(v: int, u: Unit)
    ensures -LIMIT < v * Multiplier(u) < LIMIT <==> -3_020_400 * PerSecond(u) < v < 3_020_400 * PerSecond(u)
  {
    match u {
      case Second =>
      case Millisecond =>
      case Microsecond =>
      case Nanosecond =>
    }
  }

  /** An array value survives ConvertArrowToGo followed by AppendValue in the same unit exactly when it denotes
      less than 839 hours, 3020400 seconds (and, for nanoseconds, a whole number of microseconds). */
  lemma ArrayRoundTrip(v: int, u: Unit)
    requires InInt64(v)
    ensures StoredValue(ArrowToText(v, u), u) == Some(v) <==>
      -3_020_400 * PerSecond(u) < v < 3_020_400 * PerSecond(u) && (u == Nanosecond ==> v % 1000 == 0)
    ensures -3_020_400 * PerSecond(u) < v < 3_020_400 * PerSecond(u) ==>
      InInt64(v * Multiplier(u)) && InInt64(-(v * Multiplier(u)))
  {
    LimitInUnit(v, u);
    var x := v * Multiplier(u);
    var w := Wrap(x);
    DurationRoundTrip(w);
    if w == MIN_INT64 {
      MinimumFlipsSign();
      var k := WrapCongruent(x);
      MinimumNotStored(v, u, k);
    } else if -LIMIT < w < LIMIT && !(-LIMIT < x < LIMIT) {
      SmallResult(w, v, u);
    } else {
      ExactResult(v, u);
    }
  }

  lemma MinimumNotStored(v: int, u: Unit, k: int)
    requires MIN_INT64 == v * Multiplier(u) + k * TWO64
    ensures forall r: int :: 0 < r <= MAX_INT64 ==> Quo(r, Multiplier(u)) != v
  {
    forall r: int | 0 < r <= MAX_INT64
      ensures Quo(r, Multiplier(u)) != v
    {
      var q := Quo(r, Multiplier(u));
      assert r - Multiplier(u) < q * Multiplier(u) <= r;
      assert -1 < -k < 1 || q * Multiplier(u) != v * Multiplier(u);
    }
  }

  lemma SmallResult(w: int, v: int, u: Unit)
    requires -LIMIT < w < LIMIT && !(-LIMIT < v * Multiplier(u) < LIMIT)
    ensures Quo(Quo(w, MICROSECOND) * MICROSECOND, Multiplier(u)) != v
  {
    var t := Quo(w, MICROSECOND) * MICROSECOND;
    assert -LIMIT < t < LIMIT;
    var q := Quo(t, Multiplier(u));
    assert -LIMIT < q * Multiplier(u) < LIMIT;
  }

  lemma ExactResult(v: int, u: Unit)
    ensures Quo(Quo(v * Multiplier(u), MICROSECOND) * MICROSECOND, Multiplier(u)) == v
      <==> (u == Nanosecond ==> v % 1000 == 0)
  {
    var x := v * Multiplier(u);
    match u {
      case Second => assert x == (v * 1_000_000) * 1_000; QuoExact(v * 1_000_000, 1_000);
      case Millisecond => assert x == (v * 1_000) * 1_000; QuoExact(v * 1_000, 1_000);
      case Microsecond => QuoExact(v, 1_000);
      case Nanosecond => QuoExact(v, 1);
    }
    QuoUnit(v, u);
  }

  lemma QuoExact(v: int, m: int)
    requires m in {1, 1_000}
    ensures Quo(v * m, m) == v
  {
  }

  lemma QuoUnit(v: int, u: Unit)
    ensures Quo(v * Multiplier(u), Multiplier(u)) == v
  {
    match u {
      case Second => assert Quo(v * 1_000_000_000, 1_000_000_000) == v;
      case Millisecond => assert Quo(v * 1_000_000, 1_000_000) == v;
      case Microsecond =>
      case Nanosecond =>
    }
  }

  // ---------- Declared precision ----------

  /** ConvertRawColumnType on TIME: the unit chosen for a declared precision, if one is reported. */
  function UnitFor(precision: Option<int>): Unit {
    if precision.None? then Microsecond
    else if precision.value <= 0 then Second
    else if precision.value <= 3 then Millisecond
    else Microsecond
  }

  /** A fraction of p digits written with six. */
  function SixDigits(p: nat, fraction: nat): nat
    requires p <= 6
  {
    fraction * Pow10(6 - p)
  }

  /** The clock fields and fraction of a TIME(p) value as the server writes it. */
  datatype Reading = Reading(negative: bool, hours: nat, minutes: nat, seconds: nat, p: nat, fraction: nat) {
    predicate Valid() {
      hours <= 838 && minutes <= 59 && seconds <= 59 && p <= 6 && fraction < Pow10(p)
    }

    function ClockPart(): string {
      ClockText(hours, minutes, seconds)
    }

    function TimeText(): string {
      (if negative then "-" else "") + (ClockPart() + FractionPart(if p > 0 then Some(Padded(p, fraction)) else None))
    }

    function Magnitude(): nat
      requires p <= 6
    {
      hours * HOUR + minutes * MINUTE + seconds * SECOND + SixDigits(p, fraction) * MICROSECOND
    }

    function Nanoseconds(): int
      requires p <= 6
    {
      if negative then -(Magnitude() as int) else Magnitude()
    }

    /** The same value written with six fractional digits, zero without a sign. */
    function Canonical(): Reading
      requires p <= 6
    {
      Reading(negative && Magnitude() != 0, hours, minutes, seconds, 6, SixDigits(p, fraction))
    }
  }

  lemma MicrosOfFraction(p: nat, fraction: nat)
    requires 1 <= p <= 6 && fraction < Pow10(p)
    ensures Micros(Padded(p, fraction)) == Some(SixDigits(p, fraction) as int)
    ensures SixDigits(p, fraction) < 1_000_000
  {
    var f := Padded(p, fraction);
    PaddedDigits(p, fraction);
    ValueScaled(f, 6 - p);
    PowSplit(p, fraction);
    ParseIntDigits(f + Zeros(6 - p));
  }

  lemma PowSplit(p: nat, fraction: nat)
    requires p <= 6 && fraction < Pow10(p)
    ensures SixDigits(p, fraction) < 1_000_000
    ensures p <= 3 ==> exists k: nat :: SixDigits(p, fraction) == k * 1_000
    ensures p == 0 ==> SixDigits(p, fraction) == 0
  {
    match p {
      case 0 =>
        assert SixDigits(p, fraction) == 0 * 1_000;
      case 1 =>
        assert Pow10(5) == 100_000 && Pow10(1) == 10;
        assert SixDigits(p, fraction) == (fraction * 100) * 1_000;
      case 2 =>
        assert Pow10(4) == 10_000 && Pow10(2) == 100;
        assert SixDigits(p, fraction) == (fraction * 10) * 1_000;
      case 3 =>
        assert Pow10(3) == 1_000;
        assert SixDigits(p, fraction) == fraction * 1_000;
      case 4 =>
        assert Pow10(4) == 10_000 && Pow10(2) == 100;
      case 5 =>
        assert Pow10(5) == 100_000 && Pow10(1) == 10;
      case 6 =>
        assert Pow10(6) == 1_000_000 && Pow10(0) == 1;
    }
  }

  lemma AssembleInRange(f: TimeFields)
    requires f.InRange()
    ensures Assemble(f.negative, Some(f.hours), Some(f.minutes), Some(f.seconds), Some(f.micros)) == Some(f.Nanoseconds())
  {
    AssembleAny(f);
  }

  lemma ParseReading(r: Reading)
    requires r.Valid()
    ensures ParseDuration(r.TimeText()) == Some(r.Nanoseconds())
  {
    hide ParseDuration, FractionPart, ClockText, Micros, Assemble, Padded, Pow10;
    var us: int := SixDigits(r.p, r.fraction);
    var part := if r.p > 0 then Some(Padded(r.p, r.fraction)) else None;
    ParseFields(r.negative, r.hours, r.minutes, r.seconds, part);
    PowSplit(r.p, r.fraction);
    if r.p > 0 {
      MicrosOfFraction(r.p, r.fraction);
    }
    AssembleInRange(TimeFields(r.negative, r.hours, r.minutes, r.seconds, us));
  }

  /** The unit chosen for a column's declared precision, or for none, stores every well-formed text of that precision with
      no loss, and formatting the stored value gives the text padded to six digits (a negative zero loses its sign). */
  lemma PrecisionRoundTrip(r: Reading, declared: Option<int>)
    requires r.Valid() && (declared.Some? ==> declared.value == r.p)
    ensures var u := UnitFor(declared);
      var stored := StoredValue(r.TimeText(), u);
      && stored.Some? && InInt64(stored.value)
      && stored.value * Multiplier(u) == r.Nanoseconds()
      && ArrowToText(stored.value, u) == r.Canonical().TimeText()
  {
    hide ParseDuration, Reading.TimeText, Pow10, SixDigits, StoredValue, ArrowToText, FormatDuration;
    ParseReading(r);
    PowSplit(r.p, r.fraction);
    FormatReading(r);
    var k := WholeUnits(r.hours, r.minutes, r.seconds, SixDigits(r.p, r.fraction), UnitFor(declared));
    var q: int := k;
    StoredWhole(r.TimeText(), r.Nanoseconds(), if r.negative then -q else q, UnitFor(declared));
  }

  lemma StoredWhole(text: string, n: int, q: int, u: Unit)
    requires ParseDuration(text) == Some(n) && n == q * Multiplier(u) && -LIMIT < n < LIMIT
    ensures StoredValue(text, u) == Some(q) && InInt64(q) && InInt64(n) && ArrowToText(q, u) == FormatDuration(n)
  {
    QuoUnit(q, u);
    SmallCount(q, u);
    hide ParseDuration, FormatDuration, Multiplier, Quo;
    TextOf(q, u, n);
  }

  lemma SmallCount(q: int, u: Unit)
    requires -LIMIT < q * Multiplier(u) < LIMIT
    ensures InInt64(q)
  {
  }

  /** The unit is the coarsest one that counts the declared number of digits; microseconds where none is declared, or more
      than six. */
  lemma UnitChosen(declared: Option<int>)
    ensures var m := PerSecond(UnitFor(declared));
      if declared.None? || declared.value > 6 then m == 1_000_000
      else if declared.value < 0 then m == 1
      else Pow10(declared.value) <= m && forall u :: Pow10(declared.value) <= PerSecond(u) ==> m <= PerSecond(u)
  {
    assert Pow10(0) == 1 && Pow10(1) == 10 && Pow10(2) == 100 && Pow10(3) == 1_000;
    assert Pow10(4) == 10_000 && Pow10(5) == 100_000 && Pow10(6) == 1_000_000;
    if declared.Some? && 0 <= declared.value <= 6 {
      var p := declared.value;
      assert p == 0 || p == 1 || p == 2 || p == 3 || p == 4 || p == 5 || p == 6;
    }
  }

  lemma WholeUnits(h: nat, m: nat, s: nat, us: nat, u: Unit) returns (k: nat)
    requires h <= 838 && m <= 59 && s <= 59 && us < 1_000_000 && u != Nanosecond
    requires u == Second ==> us == 0
    requires u == Millisecond ==> exists k: nat :: us == k * 1_000
    ensures h * HOUR + m * MINUTE + s * SECOND + us * MICROSECOND == k * Multiplier(u) && k * Multiplier(u) < LIMIT
  {
    match u {
      case Second =>
        k := h * 3_600 + m * 60 + s;
      case Millisecond =>
        var f: nat :| us == f * 1_000;
        k := h * 3_600_000 + m * 60_000 + s * 1_000 + f;
      case Microsecond =>
        k := h * 3_600_000_000 + m * 60_000_000 + s * 1_000_000 + us;
    }
  }

  lemma FormatReading(r: Reading)
    requires r.Valid()
    ensures InInt64(r.Nanoseconds())
    ensures FormatDuration(r.Nanoseconds()) == r.Canonical().TimeText()
  {
    PowSplit(r.p, r.fraction);
    hide ClockText, Padded, Pow10, FormatDuration, FractionPart;
    SixDigitText(r.negative, r.hours, r.minutes, r.seconds, SixDigits(r.p, r.fraction));
  }

  lemma SixDigitText(negative: bool, h: nat, m: nat, s: nat, us: nat)
    requires h <= 838 && m <= 59 && s <= 59 && us < 1_000_000
    ensures var a := h * HOUR + m * MINUTE + s * SECOND + us * MICROSECOND;
      && InInt64(a) && InInt64(-a)
      && FormatDuration(if negative then -a else a)
         == (if negative && a != 0 then "-" else "") + (ClockText(h, m, s) + FractionPart(Some(Padded(6, us))))
  {
    FieldsOfMagnitude(h, m, s, us);
    WithinLimit(h * HOUR + m * MINUTE + s * SECOND + us * MICROSECOND);
    hide *;
    var a: int := h * HOUR + m * MINUTE + s * SECOND + us * MICROSECOND;
    FormatMagnitude(if negative then -a else a);
    TextOfFields(h, m, s, us);
  }

  lemma WithinLimit(a: int)
    requires 0 <= a < LIMIT
    ensures InInt64(a) && InInt64(-a)
  {
  }

  lemma TextOfFields(h: int, m: int, s: int, us: int)
    ensures Padded(2, h) + [':'] + (Padded(2, m) + [':'] + Padded(2, s)) + (['.'] + Padded(6, us))
         == ClockText(h, m, s) + FractionPart(Some(Padded(6, us)))
  {
    hide Padded;
  }

  lemma FieldsOfMagnitude(h: nat, m: nat, s: nat, us: nat)
    requires h <= 838 && m <= 59 && s <= 59 && us < 1_000_000
    ensures var a := h * HOUR + m * MINUTE + s * SECOND + us * MICROSECOND;
      && a / HOUR == h && a % HOUR / MINUTE == m && a % HOUR % MINUTE / SECOND == s
      && a % HOUR % MINUTE % SECOND / MICROSECOND == us && a < LIMIT
  {
  }

  // ---------- Counts and texts, in seconds ----------

  lemma UnitPowers(u: Unit) returns (k: nat)
    ensures k <= 9 && PerSecond(u) == Pow10(k) && Multiplier(u) == Pow10(9 - k)
  {
    k := match u case Second => 0 case Millisecond => 3 case Microsecond => 6 case Nanosecond => 9;
    assert Pow10(0) == 1 && Pow10(3) == 1_000 && Pow10(6) == 1_000_000 && Pow10(9) == 1_000_000_000;
  }

  lemma FractionInUnit(p: nat, fraction: nat, u: Unit)
    requires p <= 6
    ensures SixDigits(p, fraction) * 1_000 >= 0
    ensures SixDigits(p, fraction) * 1_000 / Multiplier(u) == fraction * PerSecond(u) / Pow10(p)
  {
    var k := UnitPowers(u);
    PowSum(6 - p, 3);
    assert Pow10(3) == 1_000;
    hide Pow10, PerSecond, Multiplier;
    ScaledAlike(fraction, 9 - p, 9 - k, k, p);
    Decimal.Regroup(fraction, Pow10(6 - p), 1_000);
  }

  lemma SecondsInUnit(seconds: nat, x: nat, u: Unit)
    ensures (seconds * SECOND + x) / Multiplier(u) == seconds * PerSecond(u) + x / Multiplier(u)
  {
    match u {
      case Second =>
      case Millisecond =>
      case Microsecond =>
      case Nanosecond =>
    }
  }

  /** What a column of any unit stores for a well-formed text: the seconds of its clock times the unit's count per second,
      plus the fraction read at the unit's digits, cut toward zero, and the sign on the whole. */
  lemma ReadingStored(r: Reading, u: Unit)
    requires r.Valid()
    ensures var seconds := r.hours * 3_600 + r.minutes * 60 + r.seconds;
            var count := seconds * PerSecond(u) + r.fraction * PerSecond(u) / Pow10(r.p);
            StoredValue(r.TimeText(), u) == Some(if r.negative then -count else count)
  {
    hide ParseDuration, Reading.TimeText, Reading.Nanoseconds, Pow10, Multiplier, PerSecond, StoredValue;
    ParseReading(r);
    InSeconds(r);
    FractionInUnit(r.p, r.fraction, u);
    StoredCount(r.TimeText(), r.negative, r.hours * 3_600 + r.minutes * 60 + r.seconds, SixDigits(r.p, r.fraction) * 1_000,
                r.fraction * PerSecond(u) / Pow10(r.p), u);
  }

  lemma SixDigitsRead(fraction: nat, more: string)
    requires fraction < Pow10(6)
    ensures Micros(Padded(6, fraction) + more) == Micros(Padded(6, fraction))
  {
    var f := Padded(6, fraction);
    PaddedDigits(6, fraction);
    hide Padded, Pow10, ParseInt;
    assert |f| == 6 && (f + more)[..6] == f && f[..6] == f && f + Zeros(0) == f;
  }

  lemma TextExtended(sign: string, clock: string, f: string, more: string)
    ensures sign + (clock + FractionPart(Some(f))) + more == sign + (clock + FractionPart(Some(f + more)))
  {
    assert ['.'] + f + more == ['.'] + (f + more);
  }

  /** Whatever follows the sixth digit of a fraction is ignored. */
  lemma ExtraDigitsCut(r: Reading, more: string)
    requires r.Valid() && r.p == 6
    ensures ParseDuration(r.TimeText() + more) == ParseDuration(r.TimeText())
  {
    hide ParseDuration, ClockText, Micros, Padded, Pow10, FractionPart;
    var f := Padded(6, r.fraction);
    SixDigitsRead(r.fraction, more);
    ParseFields(r.negative, r.hours, r.minutes, r.seconds, Some(f));
    ParseFields(r.negative, r.hours, r.minutes, r.seconds, Some(f + more));
    TextExtended(if r.negative then "-" else "", r.ClockPart(), f, more);
  }

  lemma InSeconds(r: Reading)
    requires r.p <= 6
    ensures var n := (r.hours * 3_600 + r.minutes * 60 + r.seconds) * SECOND + SixDigits(r.p, r.fraction) * 1_000;
            r.Nanoseconds() == if r.negative then -n else n
  {
    hide Pow10;
    ClockSum(r.hours, r.minutes, r.seconds, SixDigits(r.p, r.fraction));
  }

  lemma ClockSum(h: nat, m: nat, s: nat, us: nat)
    ensures h * HOUR + m * MINUTE + s * SECOND + us * MICROSECOND == (h * 3_600 + m * 60 + s) * SECOND + us * 1_000
  {
  }

  lemma StoredCount(text: string, negative: bool, seconds: nat, x: int, c: int, u: Unit)
    requires x >= 0 && var n := seconds * SECOND + x; ParseDuration(text) == Some(if negative then -n else n)
    requires x / Multiplier(u) == c
    ensures var count := seconds * PerSecond(u) + c; StoredValue(text, u) == Some(if negative then -count else count)
  {
    hide ParseDuration, PerSecond;
    SecondsInUnit(seconds, x, u);
  }

  /** The seconds and the microseconds in a count. */
  function WholeSeconds(a: nat, u: Unit): nat {
    a / PerSecond(u)
  }

  function MicrosOver(a: nat, u: Unit): int {
    a % PerSecond(u) * 1_000_000 / PerSecond(u)
  }

  lemma CountSplit(a: nat, u: Unit)
    ensures var x := a % PerSecond(u) * Multiplier(u);
      a * Multiplier(u) == WholeSeconds(a, u) * SECOND + x && 0 <= x < SECOND && x / MICROSECOND == MicrosOver(a, u)
    ensures a < 3_020_400 * PerSecond(u) ==> WholeSeconds(a, u) < 3_020_400
  {
    match u {
      case Second =>
      case Millisecond =>
      case Microsecond =>
      case Nanosecond =>
    }
  }

  lemma CountFields(a: nat, u: Unit)
    requires a < 3_020_400 * PerSecond(u)
    ensures var x, seconds := a * Multiplier(u), WholeSeconds(a, u);
      && x < LIMIT
      && x / HOUR == seconds / 3_600 && x % HOUR / MINUTE == seconds / 60 % 60 && x % HOUR % MINUTE / SECOND == seconds % 60
      && x % HOUR % MINUTE % SECOND / MICROSECOND == MicrosOver(a, u)
  {
    CountSplit(a, u);
    hide *;
    FieldsInSeconds(WholeSeconds(a, u), a % PerSecond(u) * Multiplier(u));
  }

  lemma FieldsInSeconds(seconds: nat, x: nat)
    requires x < SECOND && seconds < 3_020_400
    ensures var a := seconds * SECOND + x;
      && a < LIMIT && a / HOUR == seconds / 3_600 && a % HOUR / MINUTE == seconds / 60 % 60
      && a % HOUR % MINUTE / SECOND == seconds % 60 && a % HOUR % MINUTE % SECOND == x
  {
    var h, m, s := seconds / 3_600, seconds / 60 % 60, seconds % 60;
    assert seconds == h * 3_600 + m * 60 + s;
    ClockFieldsOf(h, m, s, x);
  }

  lemma ClockFieldsOf(h: nat, m: nat, s: nat, x: nat)
    requires h < 839 && m < 60 && s < 60 && x < SECOND
    ensures var a := (h * 3_600 + m * 60 + s) * SECOND + x;
      a < LIMIT && a / HOUR == h && a % HOUR / MINUTE == m && a % HOUR % MINUTE / SECOND == s && a % HOUR % MINUTE % SECOND == x
  {
    var a := (h * 3_600 + m * 60 + s) * SECOND + x;
    assert a == h * HOUR + (m * MINUTE + s * SECOND + x) && m * MINUTE + s * SECOND + x < HOUR;
    assert a % HOUR == m * MINUTE + (s * SECOND + x) && s * SECOND + x < MINUTE;
    assert a % HOUR % MINUTE == s * SECOND + x;
  }

  lemma FormatMagnitude(d: int)
    requires -LIMIT < d < LIMIT
    ensures var a := if d < 0 then -d else d;
            FormatDuration(d) == (if d < 0 then "-" else "")
              + (Padded(2, a / HOUR) + [':'] + (Padded(2, a % HOUR / MINUTE) + [':'] + Padded(2, a % HOUR % MINUTE / SECOND))
                 + (['.'] + Padded(6, a % HOUR % MINUTE % SECOND / MICROSECOND)))
  {
    MagnitudeFields(if d < 0 then -d else d);
    hide Padded, Quo, Rem;
  }

  /** What is written for a count that denotes less than 839 hours: sign, hours, minutes and seconds in two digits or more,
      and six digits of fraction, cut toward zero. */
  lemma CountWritten(v: int, u: Unit)
    requires InInt64(v) && -3_020_400 * PerSecond(u) < v < 3_020_400 * PerSecond(u)
    ensures var a := if v < 0 then -v else v;
            var seconds := WholeSeconds(a, u);
            ArrowToText(v, u) == (if v < 0 then "-" else "")
              + (Padded(2, seconds / 3_600) + [':'] + (Padded(2, seconds / 60 % 60) + [':'] + Padded(2, seconds % 60))
                 + (['.'] + Padded(6, MicrosOver(a, u))))
  {
    hide *;
    var a, x := if v < 0 then -v else v, v * Multiplier(u);
    CountFields(a, u);
    CountSigned(v, u);
    TextOf(v, u, x);
    FormatMagnitude(x);
  }

  lemma TextOf(v: int, u: Unit, x: int)
    requires InInt64(v) && x == v * Multiplier(u) && -LIMIT < x < LIMIT
    ensures ArrowToText(v, u) == FormatDuration(x)
  {
    hide FormatDuration;
  }

  lemma CountSigned(v: int, u: Unit)
    requires var a := if v < 0 then -v else v; a * Multiplier(u) < LIMIT
    ensures var a, x := if v < 0 then -v else v, v * Multiplier(u);
      && -LIMIT < x < LIMIT && (x < 0 <==> v < 0) && (if x < 0 then -x else x) == a * Multiplier(u)
  {
  }

  // ---------- Every text ----------

  /** What the parser reads from a text. */
  datatype TimeFields = TimeFields(negative: bool, hours: int, minutes: int, seconds: int, micros: int) {
    /** The limits of a TIME value. */
    predicate InRange() {
      0 <= hours <= 838 && 0 <= minutes <= 59 && 0 <= seconds <= 59 && 0 <= micros <= 999_999
    }

    predicate NoneNegative() {
      hours >= 0 && minutes >= 0 && seconds >= 0 && micros >= 0
    }

    function Nanoseconds(): int {
      var sum := hours * HOUR + minutes * MINUTE + seconds * SECOND + micros * MICROSECOND;
      if negative then -sum else sum
    }
  }

  /** Three clock fields and a fraction cut or filled to six characters, each as strconv.ParseInt reads it. */
  function FieldsOf(text: string): Option<TimeFields> {
    var negative := text != "" && text[0] == '-';
    var body := if negative then text[1..] else text;
    var dot := Find(body, '.');
    var clock := Split(body[..dot], ':');
    if |clock| != 3 then None else
    var h, m, s := ParseInt(clock[0]), ParseInt(clock[1]), ParseInt(clock[2]);
    var us := if dot == |body| then Some(0) else Micros(body[dot + 1..]);
    if h.None? || m.None? || s.None? || us.None? then None
    else Some(TimeFields(negative, h.value, m.value, s.value, us.value))
  }

  lemma FieldsAssembled(text: string)
    ensures ParseDuration(text) == match FieldsOf(text)
      case None => None
      case Some(f) => Assemble(f.negative, Some(f.hours), Some(f.minutes), Some(f.seconds), Some(f.micros))
  {
    hide Split, ParseInt, Micros;
  }

  lemma MicrosBound(fraction: string)
    ensures Micros(fraction).Some? ==> Micros(fraction).value <= 999_999
  {
    var cut := if |fraction| > 6 then fraction[..6] else fraction;
    var t := cut + Zeros(6 - |cut|);
    assert |t| == 6;
    if AllDigits(t) {
      ValueBound(t);
    }
    if AllDigits(t[1..]) {
      ValueBound(t[1..]);
    }
    assert Pow10(5) == 100_000 && Pow10(6) == 1_000_000;
  }

  lemma AssembleAny(f: TimeFields)
    requires f.micros <= 999_999
    ensures var r := Assemble(f.negative, Some(f.hours), Some(f.minutes), Some(f.seconds), Some(f.micros));
      && (r.Some? <==> f.hours <= 838 && f.minutes <= 59 && f.seconds <= 59)
      && (r.Some? && f.NoneNegative() ==>
            && f.InRange() && r.value == f.Nanoseconds() && -LIMIT < r.value < LIMIT
            && NothingWraps(f.hours, f.minutes, f.seconds, f.micros))
  {
  }

  /** Every text is accepted exactly when its fields parse and the three clock fields respect their upper limits. An
      accepted text is a proper TIME value, its fields in range, nothing wrapped and its value the exact signed sum
      below 839 hours, exactly when none of its fields parses negative. */
  lemma AcceptedText(text: string)
    ensures var f := FieldsOf(text);
      ParseDuration(text).Some? <==> f.Some? && f.value.hours <= 838 && f.value.minutes <= 59 && f.value.seconds <= 59
    ensures ParseDuration(text).Some? ==>
      var f, d := FieldsOf(text).value, ParseDuration(text).value;
      (f.NoneNegative() <==>
         && f.InRange() && NothingWraps(f.hours, f.minutes, f.seconds, f.micros)
         && d == f.Nanoseconds() && -LIMIT < d < LIMIT)
  {
    FieldsAssembled(text);
    if FieldsOf(text).Some? {
      FieldsMicros(text);
      AssembleAny(FieldsOf(text).value);
    }
  }

  lemma FieldsMicros(text: string)
    requires FieldsOf(text).Some?
    ensures FieldsOf(text).value.micros <= 999_999
  {
    hide Split, ParseInt, Micros;
    var body := if text != "" && text[0] == '-' then text[1..] else text;
    MicrosBound(body[if Find(body, '.') == |body| then |body| else Find(body, '.') + 1..]);
  }

  /** ParseInt accepts a sign inside a field, so the bound of 59 does not reject a negative minute field:
      the parser takes the text and subtracts. */
  lemma SignedFieldAccepted(h: int, m: int, s: int)
    requires 0 <= h <= 838 && -59 <= m < 0 && 0 <= s <= 59
    ensures Padded(2, m)[0] == '-'
    ensures ParseDuration(ClockText(h, m, s)) == Some(h * HOUR + m * MINUTE + s * SECOND)
  {
    hide ParseDuration, ClockText;
    ParseFields(false, h, m, s, None);
    assert "" + (ClockText(h, m, s) + FractionPart(None)) == ClockText(h, m, s);
    PaddedNumeric(2, m);
  }

  /** Nor does the bound of 838 keep the value below 839 hours: a negative hour field under a leading sign gives a
      positive duration of any size. */
  lemma OutOfRangeAccepted(h: int)
    requires 839 <= h <= 2_562_047
    ensures ParseDuration("-" + ClockText(-h, 0, 0)) == Some(h * HOUR) && h * HOUR >= LIMIT
  {
    hide ParseDuration, ClockText;
    ParseFields(true, -h, 0, 0, None);
    assert ClockText(-h, 0, 0) + FractionPart(None) == ClockText(-h, 0, 0);
  }
}
