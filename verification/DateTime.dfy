// The packed datetime word: sdk/utils/time.go. A word is Go's uint64: shifts, products and sums
// are reduced modulo 2^64, and the fields are joined by a bitwise or.
module DateTime {
  import opened Base

  /** The seven numeric fields of UltipaTime, all uint64. */
  datatype Fields = Fields(year: Uint64, month: Uint64, day: Uint64, hour: Uint64, minute: Uint64, second: Uint64,
                           macrosec: Uint64)

  /** time.Time's ranges for every field but the year, which may be any uint64. */
  predicate Clock(f: Fields) {
    && 1 <= f.month <= 12 && 1 <= f.day <= 31 && f.hour <= 23
    && f.minute <= 59 && f.second <= 59 && f.macrosec <= 999_999
  }

  function Or(a: nat, b: nat): nat {
    if a == 0 && b == 0 then 0
    else 2 * Or(a / 2, b / 2) + if a % 2 == 1 || b % 2 == 1 then 1 else 0
  }

  function Wrap(n: nat): Uint64 {
    n % 0x1_0000_0000_0000_0000
  }

  function Pow2(k: nat): (p: nat)
    ensures p > 0
  {
    if k == 0 then 1 else 2 * Pow2(k - 1)
  }

  function ShiftLeft(n: Uint64, k: nat): Uint64 {
    Wrap(n * Pow2(k))
  }

  /** The bitwise or of values shifted left, in order. */
  function OrShifted(parts: seq<(Uint64, nat)>): nat {
    if parts == [] then 0
    else Or(OrShifted(parts[..|parts| - 1]), ShiftLeft(parts[|parts| - 1].0, parts[|parts| - 1].1))
  }

  function Parts(f: Fields): seq<(Uint64, nat)> {
    [(Wrap(f.year * 13 + f.month), 46), (f.day, 41), (f.hour, 36), (f.minute, 30), (f.second, 24), (f.macrosec, 0)]
  }

  /** TimeToUint64. */
  function Pack(f: Fields): nat {
    OrShifted(Parts(f))
  }

  /** Bits 46 to 62 of a word. */
  function YearMonth(w: Uint64): nat {
    w / 0x4000_0000_0000 % 0x2_0000
  }

  /** The two-digit-year rule; 70 itself is left alone. */
  function FullYear(y: nat): nat {
    if 70 < y < 100 then y + 1900 else if y < 70 then y + 2000 else y
  }

  /** Uint64ToTime: shifts right and masks. */
  function Unpack(w: Uint64): Fields {
    Fields(FullYear(YearMonth(w) / 13), YearMonth(w) % 13,
           w / 0x200_0000_0000 % 0x20, w / 0x10_0000_0000 % 0x20, w / 0x4000_0000 % 0x40,
           w / 0x100_0000 % 0x40, w % 0x100_0000)
  }

  class UltipaTime {
    var Datetime: Uint64
    var Year: Uint64
    var Month: Uint64
    var Day: Uint64
    var Hour: Uint64
    var Minute: Uint64
    var Second: Uint64
    var Macrosec: Uint64

    function View(): Fields
      reads this
    {
      Fields(Year, Month, Day, Hour, Minute, Second, Macrosec)
    }

    method Uint64ToTime(datetime: Uint64)
      modifies this
      ensures Datetime == datetime && View() == Unpack(datetime)
    {
      var yearMonth := datetime / 0x4000_0000_0000 % 0x2_0000;
      Year := yearMonth / 13;
      if Year > 70 && Year < 100 {
        Year := Year + 1900;
      } else if Year < 70 {
        Year := Year + 2000;
      }
      Datetime := datetime;
      Month := yearMonth % 13;
      Day := datetime / 0x200_0000_0000 % 0x20;
      Hour := datetime / 0x10_0000_0000 % 0x20;
      Minute := datetime / 0x4000_0000 % 0x40;
      Second := datetime / 0x100_0000 % 0x40;
      Macrosec := datetime % 0x100_0000;
    }
  }

  // ---- disjoint bits ----

  lemma {:induction false} OrZero(a: nat)
    ensures Or(a, 0) == a && Or(0, a) == a
  {
    if a > 0 {
      OrZero(a / 2);
    }
  }

  /** A bitwise or of a multiple of 2^k with something below 2^k is a sum. */
  lemma {:induction false} OrIsSum(q: nat, k: nat, b: nat)
    requires b < Pow2(k)
    ensures Or(q * Pow2(k), b) == q * Pow2(k) + b
  {
    if k == 0 {
      OrZero(q);
    } else {
      var p := Pow2(k - 1);
      assert q * Pow2(k) == 2 * (q * p);
      OrIsSum(q, k - 1, b / 2);
    }
  }

  lemma Powers()
    ensures Pow2(0) == 1 && Pow2(5) == 0x20 && Pow2(6) == 0x40 && Pow2(12) == 0x1000
    ensures Pow2(24) == 0x100_0000 && Pow2(46) == 0x4000_0000_0000
  {
    assert Pow2(1) == 2 && Pow2(2) == 2 * Pow2(1) && Pow2(3) == 2 * Pow2(2);
    hide Pow2;
    PowersAdd(2, 3);
    PowersAdd(3, 3);
    PowersAdd(6, 6);
    PowersAdd(12, 12);
    PowersAdd(24, 12);
    PowersAdd(36, 5);
    PowersAdd(41, 5);
  }

  lemma OrSnoc(parts: seq<(Uint64, nat)>, v: Uint64, k: nat)
    ensures OrShifted(parts + [(v, k)]) == Or(OrShifted(parts), ShiftLeft(v, k))
  {
    assert (parts + [(v, k)])[..|parts|] == parts;
  }

  lemma Distribute(q: nat, m: nat, v: nat, p: nat)
    ensures q * (m * p) + v * p == (q * m + v) * p
  {
    assert q * (m * p) == q * m * p;
  }

  lemma Scale(a: nat, b: nat, p: nat)
    requires a < b && p > 0
    ensures a * p < b * p
  {
  }

  lemma {:induction false} PowersAdd(i: nat, j: nat)
    ensures Pow2(i + j) == Pow2(i) * Pow2(j)
  {
    if i > 0 {
      PowersAdd(i - 1, j);
    }
  }

  lemma PowersGrow(i: nat, j: nat)
    requires i <= j
    ensures Pow2(i) <= Pow2(j)
  {
    PowersAdd(i, j - i);
    Scale(0, Pow2(j - i), Pow2(i));
  }

  /** A field below the bits in use is shifted without loss and stays below them. */
  lemma ShiftIsProduct(v: Uint64, k: nat, k': nat)
    requires k' <= k <= 46 && v < Pow2(k - k')
    ensures ShiftLeft(v, k') == v * Pow2(k') < Pow2(k)
  {
    hide Pow2;
    PowersAdd(k - k', k');
    Scale(v, Pow2(k - k'), Pow2(k'));
    PowersGrow(k, 46);
    Powers();
  }

  /** One more field below the bits in use: the or is a sum. */
  lemma OrStep(parts: seq<(Uint64, nat)>, q: nat, k: nat, k': nat, v: Uint64)
    requires OrShifted(parts) == q * Pow2(k) && k' <= k <= 46 && v < Pow2(k - k')
    ensures OrShifted(parts + [(v, k')]) == (q * Pow2(k - k') + v) * Pow2(k')
  {
    hide *;
    OrSnoc(parts, v, k');
    ShiftIsProduct(v, k, k');
    OrIsSum(q, k, v * Pow2(k'));
    PowersAdd(k - k', k');
    Distribute(q, Pow2(k - k'), v, Pow2(k'));
  }

  /** The seven fields as the digits of one number, with `high` above the day. */
  function Mix(high: nat, f: Fields): nat {
    ((((high * 0x20 + f.day) * 0x20 + f.hour) * 0x40 + f.minute) * 0x40 + f.second) * 0x100_0000 + f.macrosec
  }

  /** Fields that stay within the bits the word has for them. */
  predicate FitsBits(f: Fields) {
    && f.day < 0x20 && f.hour < 0x20 && f.minute < 0x40 && f.second < 0x40 && f.macrosec < 0x100_0000
  }

  function JoinedYear(f: Fields): nat {
    f.year * 13 + f.month
  }

  lemma EmptyOr()
    ensures OrShifted([]) == 0
  {
  }

  lemma ShiftedYear(n: nat)
    ensures Wrap(Wrap(n) * 0x4000_0000_0000) == n % 0x4_0000 * 0x4000_0000_0000
  {
    var q := n / 0x4_0000;
    var m := n / 0x1_0000_0000_0000_0000;
    assert n == q * 0x4_0000 + n % 0x4_0000;
    assert n * 0x4000_0000_0000 == q * 0x1_0000_0000_0000_0000 + n % 0x4_0000 * 0x4000_0000_0000;
    assert Wrap(n) == n - m * 0x1_0000_0000_0000_0000;
    assert Wrap(n) * 0x4000_0000_0000
        == (q - m * 0x4000_0000_0000) * 0x1_0000_0000_0000_0000 + n % 0x4_0000 * 0x4000_0000_0000;
  }

  /** The year and month are cut to the 18 bits above bit 46. */
  lemma TopField(f: Fields)
    ensures OrShifted([Parts(f)[0]]) == JoinedYear(f) % 0x4_0000 * Pow2(46)
  {
    hide Or, OrShifted, Pow2;
    var ym: nat := Wrap(JoinedYear(f));
    OrSnoc([], ym, 46);
    assert [] + [(ym as Uint64, 46)] == [Parts(f)[0]];
    assert OrShifted([]) == 0 by { EmptyOr(); }
    OrZero(ShiftLeft(ym, 46));
    Powers();
    ShiftedYear(JoinedYear(f));
  }

  /** Without overlapping bits the word is a sum of digits; the year and month keep 18 bits. */
  lemma PackIsMix(f: Fields)
    requires FitsBits(f)
    ensures Pack(f) == Mix(JoinedYear(f) % 0x4_0000, f)
    ensures Pack(f) < 0x1_0000_0000_0000_0000
  {
    hide Or, ShiftLeft, Wrap, OrShifted, Pow2;
    var high := JoinedYear(f) % 0x4_0000;
    Powers();
    TopField(f);
    var p0 := [Parts(f)[0]];
    OrStep(p0, high, 46, 41, f.day);
    var p1, q1 := p0 + [(f.day, 41)], high * 0x20 + f.day;
    OrStep(p1, q1, 41, 36, f.hour);
    var p2, q2 := p1 + [(f.hour, 36)], q1 * 0x20 + f.hour;
    OrStep(p2, q2, 36, 30, f.minute);
    var p3, q3 := p2 + [(f.minute, 30)], q2 * 0x40 + f.minute;
    OrStep(p3, q3, 30, 24, f.second);
    var p4, q4 := p3 + [(f.second, 24)], q3 * 0x40 + f.second;
    OrStep(p4, q4, 24, 0, f.macrosec);
    assert Parts(f) == p4 + [(f.macrosec, 0)];
  }

  function PackWord(f: Fields): Uint64
    requires FitsBits(f)
  {
    PackIsMix(f);
    Pack(f)
  }

  lemma SmallMultiple(d: int, base: int)
    requires -base < d * base < base
    ensures d == 0
  {
  }

  lemma Quotient(w: nat, q: nat, r: nat, base: nat)
    requires base > 0 && w == q * base + r && r < base
    ensures w / base == q
  {
    var d := w / base;
    assert w == d * base + w % base;
    assert (d - q) * base == d * base - q * base;
    SmallMultiple(d - q, base);
  }

  lemma Remainder(w: nat, q: nat, base: nat, r: nat)
    requires base > 0 && w == q * base + r && r < base
    ensures w % base == r
  {
    Quotient(w, q, r, base);
    assert w == w / base * base + w % base;
  }

  lemma LastDigit(w: nat, base: nat)
    requires base > 0
    ensures w == w / base * base + w % base
  {
  }

  /** Shifting and masking reads each digit back. */
  lemma MixDigits(high: nat, f: Fields)
    requires FitsBits(f)
    ensures var w := Mix(high, f);
      && w / 0x4000_0000_0000 == high
      && w / 0x200_0000_0000 % 0x20 == f.day
      && w / 0x10_0000_0000 % 0x20 == f.hour
      && w / 0x4000_0000 % 0x40 == f.minute
      && w / 0x100_0000 % 0x40 == f.second
      && w % 0x100_0000 == f.macrosec
  {
    var w := Mix(high, f);
    var q1 := high * 0x20 + f.day;
    var q2 := q1 * 0x20 + f.hour;
    var q3 := q2 * 0x40 + f.minute;
    var q4 := q3 * 0x40 + f.second;
    var r1 := f.second * 0x100_0000 + f.macrosec;
    var r2 := f.minute * 0x4000_0000 + r1;
    var r3 := f.hour * 0x10_0000_0000 + r2;
    var r4 := f.day * 0x200_0000_0000 + r3;
    assert w == q4 * 0x100_0000 + f.macrosec == q3 * 0x4000_0000 + r1 == q2 * 0x10_0000_0000 + r2;
    assert w == q1 * 0x200_0000_0000 + r3 == high * 0x4000_0000_0000 + r4;
    hide Mix;
    Quotient(w, q4, f.macrosec, 0x100_0000);
    Quotient(w, q3, r1, 0x4000_0000);
    Quotient(w, q2, r2, 0x10_0000_0000);
    Quotient(w, q1, r3, 0x200_0000_0000);
    Quotient(w, high, r4, 0x4000_0000_0000);
    Remainder(q1, high, 0x20, f.day);
    Remainder(q2, q1, 0x20, f.hour);
    Remainder(q3, q2, 0x40, f.minute);
    Remainder(q4, q3, 0x40, f.second);
    Remainder(w, q4, 0x100_0000, f.macrosec);
  }

  // ---- round trips ----

  lemma UnpackOfMix(high: nat, f: Fields)
    requires FitsBits(f) && high < 0x4_0000
    ensures Mix(high, f) < 0x1_0000_0000_0000_0000
    ensures var ym := high % 0x2_0000;
      Unpack(Mix(high, f)) == f.(year := FullYear(ym / 13), month := ym % 13)
  {
    MixDigits(high, f);
    assert Mix(high, f) < 0x1_0000_0000_0000_0000 by { MixBound(high, f); }
    hide Mix;
  }

  lemma MixBound(high: nat, f: Fields)
    requires FitsBits(f)
    ensures high * 0x4000_0000_0000 <= Mix(high, f) < (high + 1) * 0x4000_0000_0000
  {
  }

  lemma CutTwice(n: nat)
    ensures n % 0x4_0000 % 0x2_0000 == n % 0x2_0000
  {
  }

  /** The clock fields always come back; the year and month lose everything above 17 bits. */
  lemma UnpackOfPack(f: Fields)
    requires FitsBits(f)
    ensures var ym := JoinedYear(f) % 0x2_0000;
      Unpack(PackWord(f)) == f.(year := FullYear(ym / 13), month := ym % 13)
  {
    hide Pack, Mix, Unpack, Wrap, FullYear;
    PackIsMix(f);
    UnpackOfMix(JoinedYear(f) % 0x4_0000, f);
    CutTwice(JoinedYear(f));
  }

  /** The condition on the date under which packing loses nothing. */
  predicate Packable(f: Fields) {
    (f.year >= 100 || f.year == 70) && JoinedYear(f) < 0x2_0000
  }

  /** Reading the year and month back from 17 bits. */
  lemma YearComesBackExactly(year: nat, month: nat)
    requires 1 <= month <= 12
    ensures var joined := year * 13 + month; var ym := joined % 0x2_0000;
      FullYear(ym / 13) == year && ym % 13 == month
      <==> (year >= 100 || year == 70) && joined < 0x2_0000
  {
    var joined := year * 13 + month;
    var ym := joined % 0x2_0000;
    LastDigit(ym, 13);
    if joined < 0x2_0000 {
      Quotient(ym, year, month, 13);
      Remainder(ym, year, 13, month);
    } else {
      assert year >= 10000;
    }
  }

  /** All seven fields come back exactly for packable dates, whatever 64-bit year is given. */
  lemma RoundTripExactly(f: Fields)
    requires Clock(f)
    ensures Unpack(PackWord(f)) == f <==> Packable(f)
  {
    hide Pack, Mix, Unpack, FullYear;
    UnpackOfPack(f);
    YearComesBackExactly(f.year, f.month);
  }

  /** Every date of the years 100 to 10081 is packable and leaves the sign bit clear. */
  lemma FourDigitYears(f: Fields)
    requires Clock(f) && 100 <= f.year <= 10081
    ensures Unpack(PackWord(f)) == f && PackWord(f) < 0x8000_0000_0000_0000
  {
    hide Pack, Unpack, Mix;
    RoundTripExactly(f);
    PackIsMix(f);
    MixBound(JoinedYear(f), f);
  }

  lemma TwoDigitYears(f: Fields)
    requires Clock(f) && f.year < 100
    ensures Unpack(PackWord(f)) == f.(year := if f.year < 70 then f.year + 2000
                                              else if f.year == 70 then 70 else f.year + 1900)
  {
    hide Pack, Unpack;
    UnpackOfPack(f);
    assert JoinedYear(f) % 0x2_0000 == JoinedYear(f);
  }

  /** Cutting digits off twice cuts them off together. */
  lemma CutMinutes(w: nat)
    ensures w / 0x4000_0000 == w / 0x100_0000 / 0x40
  {
  }

  lemma CutHours(w: nat)
    ensures w / 0x10_0000_0000 == w / 0x4000_0000 / 0x40
  {
  }

  lemma CutDays(w: nat)
    ensures w / 0x200_0000_0000 == w / 0x10_0000_0000 / 0x20
  {
  }

  lemma CutMonths(w: nat)
    ensures w / 0x4000_0000_0000 == w / 0x200_0000_0000 / 0x20
  {
  }

  /** A word is its own digits, with everything from bit 46 up as the highest. */
  lemma WordIsMix(w: Uint64)
    ensures FitsBits(Unpack(w))
    ensures w == Mix(w / 0x4000_0000_0000, Unpack(w))
  {
    var q4, q3, q2, q1, q0 :=
      w / 0x100_0000, w / 0x4000_0000, w / 0x10_0000_0000, w / 0x200_0000_0000, w / 0x4000_0000_0000;
    CutMinutes(w);
    CutHours(w);
    CutDays(w);
    CutMonths(w);
    LastDigit(w, 0x100_0000);
    LastDigit(q4, 0x40);
    LastDigit(q3, 0x40);
    LastDigit(q2, 0x20);
    LastDigit(q1, 0x20);
    hide FullYear, YearMonth;
    var f := Unpack(w);
    assert f.macrosec == w % 0x100_0000 && f.second == q4 % 0x40 && f.minute == q3 % 0x40;
    assert f.hour == q2 % 0x20 && f.day == q1 % 0x20;
    hide Unpack;
  }

  lemma UnpackYear(w: Uint64)
    ensures JoinedYear(Unpack(w)) == FullYear(YearMonth(w) / 13) * 13 + YearMonth(w) % 13
  {
  }

  /** Decoding and joining again keeps the bits above the day exactly for years it does not rewrite. */
  lemma YearKept(high: nat)
    ensures var ym := high % 0x2_0000; var joined := FullYear(ym / 13) * 13 + ym % 13;
      && joined < 0x2_0000
      && (joined == high <==> high < 0x2_0000 && (ym / 13 >= 100 || ym / 13 == 70))
  {
    var ym := high % 0x2_0000;
    assert ym == ym / 13 * 13 + ym % 13;
  }

  /** Repacking what a word decodes to gives the word back exactly when its sign bit is clear and
      its year field is not rewritten by the two-digit rule. */
  lemma RepackExactly(w: Uint64)
    ensures FitsBits(Unpack(w))
    ensures PackWord(Unpack(w)) == w
       <==> w < 0x8000_0000_0000_0000 && (YearMonth(w) / 13 >= 100 || YearMonth(w) / 13 == 70)
  {
    hide Pack, Mix, FullYear, Unpack;
    var f, high := Unpack(w), w / 0x4000_0000_0000;
    WordIsMix(w);
    YearKept(high);
    assert JoinedYear(f) == FullYear(YearMonth(w) / 13) * 13 + YearMonth(w) % 13 by { UnpackYear(w); }
    PackIsMix(f);
    MixBound(high, f);
    MixBound(JoinedYear(f), f);
  }

  // ---- order ----

  predicate Before(f: Fields, g: Fields) {
    || f.year < g.year
    || (f.year == g.year && f.month < g.month)
    || (f.year == g.year && f.month == g.month && ClockBefore(f, g))
  }

  predicate ClockBefore(f: Fields, g: Fields) {
    || f.day < g.day
    || (f.day == g.day && (f.hour < g.hour || (f.hour == g.hour && (f.minute < g.minute || (f.minute == g.minute
        && (f.second < g.second || (f.second == g.second && f.macrosec < g.macrosec)))))))
  }

  lemma MixOrdered(a: nat, f: Fields, b: nat, g: Fields)
    requires FitsBits(f) && FitsBits(g)
    ensures a < b || (a == b && ClockBefore(f, g)) <==> Mix(a, f) < Mix(b, g)
  {
  }

  /** Packed words compare as the dates they hold, when the dates do not differ above the 18 bits kept. */
  lemma PackOrdered(f: Fields, g: Fields)
    requires Clock(f) && Clock(g) && JoinedYear(f) / 0x4_0000 == JoinedYear(g) / 0x4_0000
    ensures Before(f, g) <==> PackWord(f) < PackWord(g)
  {
    hide Pack, Mix, ClockBefore;
    PackIsMix(f);
    PackIsMix(g);
    LastDigit(JoinedYear(f), 0x4_0000);
    LastDigit(JoinedYear(g), 0x4_0000);
    MixOrdered(JoinedYear(f) % 0x4_0000, f, JoinedYear(g) % 0x4_0000, g);
  }

  lemma PackInSteps(f: Fields)
    ensures Pack(f) == Or(Or(Or(Or(Or(ShiftLeft(Wrap(JoinedYear(f)), 46), ShiftLeft(f.day, 41)), ShiftLeft(f.hour, 36)),
                                ShiftLeft(f.minute, 30)), ShiftLeft(f.second, 24)), ShiftLeft(f.macrosec, 0))
  {
    hide Or, ShiftLeft, Wrap, OrShifted;
    var ym := Wrap(JoinedYear(f));
    var p1 := [(ym, 46)];
    var p2 := p1 + [(f.day, 41)];
    var p3 := p2 + [(f.hour, 36)];
    var p4 := p3 + [(f.minute, 30)];
    var p5 := p4 + [(f.second, 24)];
    EmptyOr();
    OrSnoc([], ym, 46);
    assert [] + [(ym, 46)] == p1;
    OrZero(ShiftLeft(ym, 46));
    OrSnoc(p1, f.day, 41);
    OrSnoc(p2, f.hour, 36);
    OrSnoc(p3, f.minute, 30);
    OrSnoc(p4, f.second, 24);
    OrSnoc(p5, f.macrosec, 0);
    assert Parts(f) == p5 + [(f.macrosec, 0)];
  }

  /** TimeToUltipaTime agrees with TimeToUint64 on the word and keeps the fields; nil means the epoch. */
  method TimeToUltipaTime(t: Option<Fields>, epoch: Fields) returns (u: UltipaTime)
    requires t.Some? ==> FitsBits(t.value)
    requires FitsBits(epoch)
    ensures fresh(u)
    ensures u.View() == if t.Some? then t.value else epoch
    ensures u.Datetime == PackWord(u.View())
  {
    hide Or, ShiftLeft, Wrap, OrShifted;
    var time := if t.Some? then t.value else epoch;
    var datetime: nat := ShiftLeft(Wrap(time.year * 13 + time.month), 46);
    datetime := Or(datetime, ShiftLeft(time.day, 41));
    datetime := Or(datetime, ShiftLeft(time.hour, 36));
    datetime := Or(datetime, ShiftLeft(time.minute, 30));
    datetime := Or(datetime, ShiftLeft(time.second, 24));
    datetime := Or(datetime, ShiftLeft(time.macrosec, 0));
    PackInSteps(time);
    PackIsMix(time);
    u := new UltipaTime;
    u.Datetime := datetime;
    u.Year, u.Month, u.Day := time.year, time.month, time.day;
    u.Hour, u.Minute, u.Second, u.Macrosec := time.hour, time.minute, time.second, time.macrosec;
  }
}
