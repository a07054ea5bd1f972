/** Round trips and order of binary TIME and DATETIME values. */
module TemporalTheorems {
  import opened Arith
  import opened Bits
  import opened ByteStore
  import opened Temporal

  /** The smallest fraction that `dec` digits of storage can tell apart, in microseconds. */
  function Granule(dec: nat): nat
    requires dec <= 6
  {
    match dec
    case 0 => 1000000
    case 1 | 2 => 10000
    case 3 | 4 => 100
    case _ => 1
  }

  /** A packed value by sign, integer part and microseconds. */
  function Pack(neg: bool, q: nat, f: nat): int {
    if neg then -(q * TWO24 + f) else q * TWO24 + f
  }

  lemma PackParts(neg: bool, q: nat, f: nat)
    requires f < 1000000
    ensures var nr := Pack(neg, q, f);
            && PackedFrac(nr) == (if neg then 0 - f else f)
            && PackedInt(nr) == (if !neg then q else if f == 0 then 0 - q else -1 - q)
            && (nr < 0 <==> neg && q * TWO24 + f > 0)
  {
    var nr := Pack(neg, q, f);
    DivModUnique(q * TWO24 + f, TWO24, q, f);
    if neg {
      if f == 0 {
        DivModUnique(nr, TWO24, 0 - q, 0);
      } else {
        DivModUnique(nr, TWO24, -1 - q, TWO24 - f);
      }
    }
  }

  lemma LoadsSeePrefix(a: seq<Byte>, b: seq<Byte>)
    ensures |a| == 3 ==> Uint3(a + b) == Uint3(a)
    ensures |a| == 5 ==> Uint5(a + b) == Uint5(a)
    ensures |a| == 3 ==> (a + b)[3..] == b
    ensures |a| == 5 ==> (a + b)[5..] == b
  {
  }

  // ---- TIME bytes --------------------------------------------------------------------

  /** The integer part of the stored number, once the fraction is gone: q or its mirror image. */
  function Floor(neg: bool, q: nat, f: nat): int {
    if !neg then q else if f == 0 then 0 - q else -1 - q
  }

  /** What is read back from the bytes of a packed time, whatever its fraction. */
  function TimeReadBack(neg: bool, q: nat, f: nat, dec: nat): int
    requires dec <= 6
  {
    var g := Granule(dec);
    if dec == 0 || (neg && 0 < f < g) then PackedMake(Floor(neg, q, f), 0)
    else Pack(neg, q, f - f % g)
  }

  lemma TimeBytesReadBack(neg: bool, q: nat, f: nat, dec: nat)
    requires q < 0x40_0000 && f < 1000000 && dec <= 6
    ensures TimePackedFromBinary(TimeBytes(Pack(neg, q, f), dec), dec) == TimeReadBack(neg, q, f, dec)
  {
    hide Store1, Store2, Store3, Store6, Uint2, Uint3, Uint6, CDiv, CRem, Pack, Floor;
    var nr := Pack(neg, q, f);
    PackParts(neg, q, f);
    TopReadBack(neg, q, f);
    var top := Store3(TIMEF_INT_OFS + PackedInt(nr));
    match dec {
      case 1 | 2 =>
        TwoDigitsReadBack(neg, q, f);
      case 3 | 4 =>
        FourDigitsReadBack(neg, q, f);
      case 5 | 6 =>
        WholeReadBack(neg, q, f);
      case _ =>
        LoadsSeePrefix(top, []);
        assert top + [] == top;
    }
  }

  lemma TwoDigitsReadBack(neg: bool, q: nat, f: nat)
    requires q < 0x40_0000 && f < 1000000
    ensures var top := Store3(TIMEF_INT_OFS + Floor(neg, q, f));
            var low := Store1(CDiv(PackedFrac(Pack(neg, q, f)), 10000));
            && ReadFraction(Uint3(top + low) - TIMEF_INT_OFS, At(top + low, 3), 10000, 0x100)
            == TimeReadBack(neg, q, f, 2)
  {
    hide Store3, Uint3, CDiv, Pack, PackedMake, Floor, ReadFraction;
    PackParts(neg, q, f);
    TopReadBack(neg, q, f);
    LoadsSeePrefix(Store3(TIMEF_INT_OFS + Floor(neg, q, f)), Store1(CDiv(PackedFrac(Pack(neg, q, f)), 10000)));
    BorrowBack(neg, q, f, 10000, 0x100);
  }

  lemma FourDigitsReadBack(neg: bool, q: nat, f: nat)
    requires q < 0x40_0000 && f < 1000000
    ensures var top := Store3(TIMEF_INT_OFS + Floor(neg, q, f));
            var low := Store2(CDiv(PackedFrac(Pack(neg, q, f)), 100));
            && ReadFraction(Uint3(top + low) - TIMEF_INT_OFS, Uint2((top + low)[3..]), 100, 0x1_0000)
            == TimeReadBack(neg, q, f, 4)
  {
    hide Store2, Store3, Uint2, Uint3, CDiv, Pack, PackedMake, Floor, ReadFraction;
    PackParts(neg, q, f);
    TopReadBack(neg, q, f);
    LoadsSeePrefix(Store3(TIMEF_INT_OFS + Floor(neg, q, f)), Store2(CDiv(PackedFrac(Pack(neg, q, f)), 100)));
    Store2ThenLoad(CDiv(PackedFrac(Pack(neg, q, f)), 100));
    BorrowBack(neg, q, f, 100, 0x1_0000);
  }

  lemma TopReadBack(neg: bool, q: nat, f: nat)
    requires q < 0x40_0000 && f < 1000000
    ensures PackedInt(Pack(neg, q, f)) == Floor(neg, q, f)
    ensures Uint3(Store3(TIMEF_INT_OFS + Floor(neg, q, f))) - TIMEF_INT_OFS == Floor(neg, q, f)
  {
    var x := TIMEF_INT_OFS + Floor(neg, q, f);
    PackParts(neg, q, f);
    Store3ThenLoad(x);
    DivModUnique(x, 0x100_0000, 0, x);
  }

  lemma WholeReadBack(neg: bool, q: nat, f: nat)
    requires q < 0x40_0000 && f < 1000000
    ensures Uint6(Store6(Pack(neg, q, f) + TIMEF_OFS)) - TIMEF_OFS == Pack(neg, q, f) == Pack(neg, q, f - f % 1)
  {
    var x := Pack(neg, q, f) + TIMEF_OFS;
    Store6ThenLoad(x);
    DivModUnique(x, 0x1_0000_0000_0000, 0, x);
  }

  /** The two short branches of my_time_packed_from_binary. */
  function ReadFraction(intpart: int, frac: int, g: nat, width: nat): int {
    if intpart < 0 && frac != 0 then PackedMake(intpart + 1, (frac - width) * g) else PackedMake(intpart, frac * g)
  }

  /** A fraction word below a floored integer part, read back with the borrow. */
  lemma BorrowBack(neg: bool, q: nat, f: nat, g: nat, width: nat)
    requires f < 1000000 && ((g == 10000 && width == 0x100) || (g == 100 && width == 0x1_0000))
    ensures ReadFraction(Floor(neg, q, f), CDiv(if neg then 0 - f else f, g) % width, g, width)
         == if neg && 0 < f < g then PackedMake(Floor(neg, q, f), 0) else Pack(neg, q, f - f % g)
  {
    hide CDiv;
    FractionByte(neg, f, g, width);
    assert (0 - f / g) * g == 0 - f / g * g;
  }

  /** A truncated fraction, stored modulo the size of its word. */
  lemma FractionByte(neg: bool, f: nat, g: nat, width: nat)
    requires f < 1000000 && ((g == 10000 && width == 0x100) || (g == 100 && width == 0x1_0000))
    ensures var stored := CDiv(if neg then 0 - f else f, g) % width;
            && stored == (if neg && f / g > 0 then width - f / g else f / g)
            && 0 <= f / g < width / 2
            && (f / g == 0 <==> f < g) && f - f % g == f / g * g
  {
    if neg && f / g > 0 {
      DivModUnique(0 - f / g, width, -1, width - f / g);
    }
  }

  /** The bytes of a packed TIME give it back exactly when its fraction is a multiple of what the
      storage can tell apart: 10^4 for one or two digits, 10^2 for three or four. */
  lemma TimeBytesRoundTrip(neg: bool, q: nat, f: nat, dec: nat)
    requires q < 0x40_0000 && f < 1000000 && dec <= 6
    ensures TimePackedFromBinary(TimeBytes(Pack(neg, q, f), dec), dec) == Pack(neg, q, f)
       <==> f % Granule(dec) == 0
  {
    hide TimeBytes, TimePackedFromBinary;
    TimeBytesReadBack(neg, q, f, dec);
  }

  // ---- TIME structures ---------------------------------------------------------------

  function Hours(t: TimeFields): nat {
    (if t.month > 0 then 0 else t.day * 24) + t.hour
  }

  /** At most 838:59:59.999999, in absolute value. */
  predicate TimeInRange(t: TimeFields) {
    Hours(t) <= 838 && t.minute <= 59 && t.second <= 59 && t.secondPart <= 999999
  }

  function Hms(t: TimeFields): nat {
    Hours(t) * 4096 + t.minute * 64 + t.second
  }

  lemma ThreeFields(h: nat, m: nat, s: nat)
    requires h < 0x10_0000 && m < 64 && s < 64
    ensures BitOr(BitOr(ShiftLeft32(h, 12), ShiftLeft32(m, 6)), s) == h * 4096 + m * 64 + s
  {
    hide BitOr;
    assert Pow(2, 12) == 4096 && Pow(2, 6) == 64;
    OrDisjoint(h, 12, m * 64);
    assert h * 4096 + m * 64 == (h * 64 + m) * 64;
    OrDisjoint(h * 64 + m, 6, s);
  }

  lemma TimeToPackedValue(t: TimeFields)
    requires TimeInRange(t)
    ensures TimeToPacked(t) == Pack(t.neg, Hms(t), t.secondPart) && Hms(t) < 0x3F_0000
  {
    ThreeFields(Hours(t), t.minute, t.second);
  }

  /** No date part, and no negative zero: the times that TIME columns produce. */
  predicate CanonicalTime(t: TimeFields) {
    && t.year == t.month == t.day == 0 && t.timeType == TIME
    && (t.neg ==> t.hour + t.minute + t.second + t.secondPart > 0)
  }

  lemma UnpackPacked(neg: bool, q: nat, f: nat)
    requires f < 1000000
    ensures UnpackedTime(Pack(neg, q, f))
         == TimeFields(0, 0, 0, q / 4096 % 1024, q / 64 % 64, q % 64, f, neg && q * TWO24 + f > 0, TIME)
  {
    PackParts(neg, q, f);
    PackParts(false, q, f);
  }

  lemma HmsFields(h: nat, m: nat, s: nat)
    requires h < 1024 && m < 64 && s < 64
    ensures var q := h * 4096 + m * 64 + s; q / 4096 % 1024 == h && q / 64 % 64 == m && q % 64 == s
  {
  }

  /** Structure to packed value to bytes and back is the identity exactly for the canonical times whose
      microseconds the storage can hold. */
  lemma TimeRoundTrip(t: TimeFields, dec: nat)
    requires TimeInRange(t) && dec <= 6
    ensures UnpackedTime(TimePackedFromBinary(TimeBytes(TimeToPacked(t), dec), dec)) == t
       <==> CanonicalTime(t) && t.secondPart % Granule(dec) == 0
  {
    hide TimeBytes, TimePackedFromBinary, TimeToPacked, UnpackedTime;
    var q, f, g := Hms(t), t.secondPart, Granule(dec);
    TimeToPackedValue(t);
    TimeBytesReadBack(t.neg, q, f, dec);
    HmsFields(Hours(t), t.minute, t.second);
    UnpackPacked(t.neg, q, f - f % g);
    UnpackPacked(t.neg, q, 0);
    UnpackPacked(t.neg, q + 1, 0);
    assert f % g != 0 ==> f > 0;
  }

  // ---- TIME order --------------------------------------------------------------------

  /** Signed length in microseconds. */
  function Duration(t: TimeFields): int {
    Signed(t.neg, Seconds(t) * 1000000 + t.secondPart)
  }

  function Seconds(t: TimeFields): nat {
    (Hours(t) * 60 + t.minute) * 60 + t.second
  }

  /** The number that the bytes of a time spell: signed, in units of the smallest stored fraction. */
  function StoredTime(neg: bool, q: nat, f: nat, dec: nat): int
    requires dec <= 6
  {
    0x80_0000 * StoredUnit(dec) + Signed(neg, StoredMagnitude(q, f, dec))
  }

  function StoredMagnitude(q: nat, f: nat, dec: nat): nat
    requires dec <= 6
  {
    q * StoredUnit(dec) + f / Granule(dec)
  }

  function StoredUnit(dec: nat): nat
    requires dec <= 6
  {
    match dec
    case 0 => 1
    case 1 | 2 => 0x100
    case 3 | 4 => 0x1_0000
    case _ => TWO24
  }

  lemma StoredTop(neg: bool, q: nat, f: nat)
    requires q < 0x40_0000 && f < 1000000
    ensures PackedInt(Pack(neg, q, f)) == Floor(neg, q, f)
    ensures BigEndian(Store3(TIMEF_INT_OFS + Floor(neg, q, f))) == TIMEF_INT_OFS + Floor(neg, q, f)
  {
    var x := TIMEF_INT_OFS + Floor(neg, q, f);
    PackParts(neg, q, f);
    Store3ThenLoad(x);
    DivModUnique(x, 0x100_0000, 0, x);
    BigEndianSmall(Store3(x));
  }

  /** An integer part and a fraction word below it. */
  lemma TopAndFraction(neg: bool, q: nat, f: nat, g: nat, width: nat, low: seq<Byte>)
    requires (g == 10000 && width == 0x100 && |low| == 1) || (g == 100 && width == 0x1_0000 && |low| == 2)
    requires q < 0x40_0000 && f < 1000000 && f % g == 0
    requires BigEndian(low) == CDiv(if neg then 0 - f else f, g) % width
    ensures BigEndian(Store3(TIMEF_INT_OFS + Floor(neg, q, f)) + low)
         == 0x80_0000 * width + Signed(neg, q * width + f / g)
  {
    hide Store3, BigEndian, CDiv;
    StoredTop(neg, q, f);
    FractionByte(neg, f, g, width);
    Pow256Table();
    BigEndianConcat(Store3(TIMEF_INT_OFS + Floor(neg, q, f)), low);
    assert BigEndian(low) == if neg && f > 0 then width - f / g else f / g;
  }

  lemma TimeBytesNumber(neg: bool, q: nat, f: nat, dec: nat)
    requires q < 0x40_0000 && f < 1000000 && dec <= 6 && f % Granule(dec) == 0
    ensures BigEndian(TimeBytes(Pack(neg, q, f), dec)) == StoredTime(neg, q, f, dec)
  {
    hide Store2, Store3, Store6, BigEndian, CDiv;
    var nr := Pack(neg, q, f);
    PackParts(neg, q, f);
    StoredTop(neg, q, f);
    match dec {
      case 1 | 2 =>
        BigEndianSmall(Store1(CDiv(PackedFrac(nr), 10000)));
        TopAndFraction(neg, q, f, 10000, 0x100, Store1(CDiv(PackedFrac(nr), 10000)));
      case 3 | 4 =>
        BigEndianSmall(Store2(CDiv(PackedFrac(nr), 100)));
        Store2ThenLoad(CDiv(PackedFrac(nr), 100));
        TopAndFraction(neg, q, f, 100, 0x1_0000, Store2(CDiv(PackedFrac(nr), 100)));
      case 5 | 6 =>
        WholeNumber(nr);
      case _ =>
    }
  }

  lemma WholeNumber(nr: int)
    requires 0 <= nr + TIMEF_OFS < 0x1_0000_0000_0000
    ensures BigEndian(Store6(nr + TIMEF_OFS)) == nr + TIMEF_OFS
  {
    hide Store6;
    Store6ThenLoad(nr + TIMEF_OFS);
    DivModUnique(nr + TIMEF_OFS, 0x1_0000_0000_0000, 0, nr + TIMEF_OFS);
    BigEndianSix(Store6(nr + TIMEF_OFS));
  }

  lemma BelowTop(top: seq<Byte>, low: seq<Byte>)
    ensures |low| == 1 ==> BigEndian(top + low) == BigEndian(top) * 0x100 + Uint1(low)
    ensures |low| == 2 ==> BigEndian(top + low) == BigEndian(top) * 0x1_0000 + Uint2(low)
    ensures |low| == 3 ==> BigEndian(top + low) == BigEndian(top) * TWO24 + Uint3(low)
  {
    hide BigEndian;
    BigEndianConcat(top, low);
    BigEndianSmall(low);
    Pow256Table();
  }

  function Uint1(a: seq<Byte>): nat
    requires |a| >= 1
  {
    a[0]
  }

  lemma BigEndianSix(s: seq<Byte>)
    ensures |s| == 5 ==> BigEndian(s) == Uint5(s)
    ensures |s| == 6 ==> BigEndian(s) == Uint6(s)
  {
    if |s| == 5 {
      BigEndianSmall(s[..4]);
    } else if |s| == 6 {
      BigEndianSmall(s[..5][..4]);
    }
  }

  /** Times whose microseconds fit compare as byte strings exactly as they compare as durations. */
  lemma TimeBytesOrder(t: TimeFields, u: TimeFields, dec: nat)
    requires TimeInRange(t) && TimeInRange(u) && dec <= 6
    requires t.secondPart % Granule(dec) == 0 && u.secondPart % Granule(dec) == 0
    ensures LexLess(TimeBytes(TimeToPacked(t), dec), TimeBytes(TimeToPacked(u), dec))
       <==> Duration(t) < Duration(u)
  {
    hide TimeBytes, TimeToPacked, BigEndian, LexLess;
    TimeToPackedValue(t);
    TimeToPackedValue(u);
    TimeBytesNumber(t.neg, Hms(t), t.secondPart, dec);
    TimeBytesNumber(u.neg, Hms(u), u.secondPart, dec);
    LexIsNumeric(TimeBytes(TimeToPacked(t), dec), TimeBytes(TimeToPacked(u), dec));
    StoredMagnitudeOrder(t, u, dec);
    StoredMagnitudeOrder(u, t, dec);
    SignedOrder(t.neg, StoredMagnitude(Hms(t), t.secondPart, dec), Seconds(t) * 1000000 + t.secondPart,
                u.neg, StoredMagnitude(Hms(u), u.secondPart, dec), Seconds(u) * 1000000 + u.secondPart);
  }

  /** Two magnitudes that order alike, and vanish together, order alike once signed. */
  lemma SignedOrder(n: bool, x: nat, x': nat, m: bool, y: nat, y': nat)
    requires (x < y <==> x' < y') && (y < x <==> y' < x') && (x == 0 <==> x' == 0) && (y == 0 <==> y' == 0)
    ensures Signed(n, x) < Signed(m, y) <==> Signed(n, x') < Signed(m, y')
  {
  }

  /** Stored magnitudes and durations order alike. */
  lemma StoredMagnitudeOrder(t: TimeFields, u: TimeFields, dec: nat)
    requires TimeInRange(t) && TimeInRange(u) && dec <= 6
    requires t.secondPart % Granule(dec) == 0 && u.secondPart % Granule(dec) == 0
    ensures StoredMagnitude(Hms(t), t.secondPart, dec) < StoredMagnitude(Hms(u), u.secondPart, dec)
       <==> Seconds(t) * 1000000 + t.secondPart < Seconds(u) * 1000000 + u.secondPart
    ensures StoredMagnitude(Hms(t), t.secondPart, dec) == 0 <==> Seconds(t) * 1000000 + t.secondPart == 0
  {
    SecondsOrder(Hours(t), t.minute, t.second, Hours(u), u.minute, u.second);
    FractionOrder(t.secondPart, u.secondPart, dec);
    HornerStep(Hms(t), Hms(u), StoredUnit(dec), t.secondPart / Granule(dec), u.secondPart / Granule(dec));
    HornerStep(Seconds(t), Seconds(u), 1000000, t.secondPart, u.secondPart);
  }

  lemma SecondsOrder(h: nat, m: nat, s: nat, h': nat, m': nat, s': nat)
    requires m < 60 && s < 60 && m' < 60 && s' < 60
    ensures h * 4096 + m * 64 + s < h' * 4096 + m' * 64 + s' <==> (h * 60 + m) * 60 + s < (h' * 60 + m') * 60 + s'
    ensures h * 4096 + m * 64 + s == h' * 4096 + m' * 64 + s' <==> (h * 60 + m) * 60 + s == (h' * 60 + m') * 60 + s'
  {
    HornerStep(h, h', 64, m, m');
    HornerStep(h * 64 + m, h' * 64 + m', 64, s, s');
    HornerStep(h, h', 60, m, m');
    HornerStep(h * 60 + m, h' * 60 + m', 60, s, s');
  }

  lemma FractionOrder(f: nat, f': nat, dec: nat)
    requires dec <= 6 && f < 1000000 && f' < 1000000 && f % Granule(dec) == 0 && f' % Granule(dec) == 0
    ensures f < f' <==> f / Granule(dec) < f' / Granule(dec)
    ensures f == f' <==> f / Granule(dec) == f' / Granule(dec)
    ensures f / Granule(dec) < StoredUnit(dec) && f' / Granule(dec) < StoredUnit(dec)
  {
  }

  // ---- DATETIME ----------------------------------------------------------------------

  /** The ranges of check_datetime_range. */
  predicate DatetimeInRange(t: TimeFields) {
    && t.year <= 9999 && t.month <= 12 && t.day <= 31
    && t.hour <= 23 && t.minute <= 59 && t.second <= 59 && t.secondPart <= 999999
  }

  function Ymdhms(t: TimeFields): nat {
    ((t.year * 13 + t.month) * 32 + t.day) * 0x2_0000 + (t.hour * 4096 + t.minute * 64 + t.second)
  }

  lemma PowersUsed()
    ensures Pow(2, 5) == 32 && Pow(2, 17) == 0x2_0000
  {
  }

  lemma MonthsShifted(ym: nat)
    requires ym < 0x10_0000
    ensures ShiftLeft32(ym % 0x1_0000_0000, 5) == ym * 32 == ym * Pow(2, 5)
  {
    PowersUsed();
    hide Pow;
  }

  lemma DatetimeToPackedValue(t: TimeFields)
    requires DatetimeInRange(t)
    ensures DatetimeToPacked(t) == Pack(t.neg, Ymdhms(t), t.secondPart) && Ymdhms(t) < 0x7F_0000_0000
  {
    var ym := t.year * 13 + t.month;
    PowersUsed();
    hide BitOr, Pow;
    ThreeFields(t.hour, t.minute, t.second);
    MonthsShifted(ym);
    hide ShiftLeft32;
    OrDisjoint(t.year * 13 + t.month, 5, t.day);
    OrDisjoint((t.year * 13 + t.month) * 32 + t.day, 17, t.hour * 4096 + t.minute * 64 + t.second);
  }

  /** The fields of an integer part, and the integer part of the fields. */
  lemma UnpackPackedDatetime(neg: bool, q: nat, f: nat)
    requires f < 1000000
    ensures var t := UnpackedDatetime(Pack(neg, q, f));
            && t.secondPart == f && t.neg == (neg && q * TWO24 + f > 0) && t.timeType == DATETIME
            && Ymdhms(t) == q && t.month < 13 && t.day < 32 && t.hour < 32 && t.minute < 64 && t.second < 64
  {
    PackParts(neg, q, f);
    PackParts(false, q, f);
    var ymd, hms := q / 0x2_0000, q % 0x2_0000;
    assert ymd == (ymd / 32 / 13 * 13 + ymd / 32 % 13) * 32 + ymd % 32;
    HmsDigits(hms);
  }

  lemma HmsDigits(hms: nat)
    requires hms < 0x2_0000
    ensures hms / 4096 * 4096 + hms / 64 % 64 * 64 + hms % 64 == hms && hms / 4096 < 32
  {
  }

  /** Within their ranges the fields are determined by the integer part. */
  lemma YmdhmsInjective(t: TimeFields, u: TimeFields)
    requires t.month < 13 && t.day < 32 && t.hour < 32 && t.minute < 64 && t.second < 64
    requires u.month < 13 && u.day < 32 && u.hour < 32 && u.minute < 64 && u.second < 64
    requires Ymdhms(t) == Ymdhms(u)
    ensures t.year == u.year && t.month == u.month && t.day == u.day
    ensures t.hour == u.hour && t.minute == u.minute && t.second == u.second
  {
  }

  /** What is read back from the bytes of a packed datetime. A negative one loses its fraction's
      borrow: the integer part was floored when it was stored. */
  function DatetimeReadBack(neg: bool, q: nat, f: nat, dec: nat): int
    requires dec <= 6
  {
    var kept := if dec == 0 then 0 else f - f % Granule(dec);
    PackedMake(Floor(neg, q, f), if neg then 0 - kept else kept)
  }

  lemma DatetimeBytesReadBack(neg: bool, q: nat, f: nat, dec: nat)
    requires q < 0x80_0000_0000 && f < 1000000 && dec <= 6
    ensures DatetimePackedFromBinary(DatetimeBytes(Pack(neg, q, f), dec), dec) == DatetimeReadBack(neg, q, f, dec)
  {
    hide Store1, Store2, Store3, Store5, Uint5, Sint2, Sint3, CDiv, PackedMake, Pack, SignedChar;
    var nr := Pack(neg, q, f);
    PackParts(neg, q, f);
    var x := PackedInt(nr) + DATETIMEF_INT_OFS;
    Store5ThenLoad(x);
    DivModUnique(x, 0x100_0000_0000, 0, x);
    match dec {
      case 1 | 2 =>
        LoadsSeePrefix(Store5(x), Store1(CDiv(PackedFrac(nr), 10000)));
        SignedFraction1(neg, f);
      case 3 | 4 =>
        LoadsSeePrefix(Store5(x), Store2(CDiv(PackedFrac(nr), 100)));
        SignedFraction2(neg, f);
      case 5 | 6 =>
        LoadsSeePrefix(Store5(x), Store3(PackedFrac(nr)));
        SignedFraction3(neg, f);
      case _ =>
        LoadsSeePrefix(Store5(x), []);
    }
  }

  lemma SignedFraction1(neg: bool, f: nat)
    requires f < 1000000
    ensures SignedChar(Store1(CDiv(if neg then 0 - f else f, 10000))[0]) * 10000
         == if neg then 0 - (f - f % 10000) else f - f % 10000
  {
    FractionByte(neg, f, 10000, 0x100);
  }

  lemma SignedFraction2(neg: bool, f: nat)
    requires f < 1000000
    ensures Sint2(Store2(CDiv(if neg then 0 - f else f, 100))) * 100 == if neg then 0 - (f - f % 100) else f - f % 100
  {
    hide CDiv, Store2, Sint2;
    var low := CDiv(if neg then 0 - f else f, 100);
    FractionByte(neg, f, 100, 0x1_0000);
    Store2ThenLoad(low);
    Sint2IsSigned(Store2(low));
    ReadSigned(2, Store2(low));
  }

  lemma SignedFraction3(neg: bool, f: nat)
    requires f < 1000000
    ensures Sint3(Store3(if neg then 0 - f else f)) == if neg then 0 - f else f
  {
    hide Store3, Sint3;
    var low := if neg then 0 - f else f;
    Store3ThenLoad(low);
    Sint3IsSigned(Store3(low));
    ReadSigned(3, Store3(low));
    if neg && f > 0 {
      DivModUnique(low, 0x100_0000, -1, 0x100_0000 - f);
    }
  }

  lemma ReadSigned(n: nat, s: seq<Byte>)
    requires |s| == n && 2 <= n <= 3
    ensures s[..n] == s
    ensures n == 2 ==> SignedWord(2, BigEndian(s)) == if Uint2(s) >= 0x8000 then Uint2(s) - 0x1_0000 else Uint2(s)
    ensures n == 3 ==> SignedWord(3, BigEndian(s)) == if Uint3(s) >= 0x80_0000 then Uint3(s) - 0x100_0000 else Uint3(s)
  {
    BigEndianSmall(s);
    Pow256Table();
  }

  /** Structure to packed value to bytes and back is the identity exactly for the datetimes whose
      microseconds the storage can hold, provided a negative one is nonzero and has no microseconds. */
  lemma DatetimeRoundTrip(t: TimeFields, dec: nat)
    requires DatetimeInRange(t) && dec <= 6
    ensures UnpackedDatetime(DatetimePackedFromBinary(DatetimeBytes(DatetimeToPacked(t), dec), dec)) == t
       <==> t.timeType == DATETIME && t.secondPart % Granule(dec) == 0
            && (t.neg ==> t.secondPart == 0 && Ymdhms(t) > 0)
  {
    hide DatetimeBytes, DatetimePackedFromBinary, DatetimeToPacked, UnpackedDatetime, Ymdhms;
    var q, f, g := Ymdhms(t), t.secondPart, Granule(dec);
    var kept := if dec == 0 then 0 else f - f % g;
    DatetimeToPackedValue(t);
    DatetimeBytesReadBack(t.neg, q, f, dec);
    var borrowed := t.neg && f > 0;
    var q' := if borrowed then q + 1 else q;
    assert DatetimeReadBack(t.neg, q, f, dec) == Pack(t.neg, q', kept);
    UnpackPackedDatetime(t.neg, q', kept);
    var u := UnpackedDatetime(Pack(t.neg, q', kept));
    if q' == q {
      YmdhmsInjective(t, u);
    }
  }

  // ---- DATETIME order ----------------------------------------------------------------

  /** Calendar order, field by field. */
  predicate DatetimeBefore(t: TimeFields, u: TimeFields) {
    || t.year < u.year
    || (t.year == u.year && (t.month < u.month
    || (t.month == u.month && (t.day < u.day
    || (t.day == u.day && (t.hour < u.hour
    || (t.hour == u.hour && (t.minute < u.minute
    || (t.minute == u.minute && (t.second < u.second
    || (t.second == u.second && t.secondPart < u.secondPart)))))))))))
  }

  /** Packing is strictly monotone in (year, month, day, hour, minute, second, microsecond). */
  lemma DatetimePackingOrder(t: TimeFields, u: TimeFields)
    requires DatetimeInRange(t) && DatetimeInRange(u) && !t.neg && !u.neg
    ensures DatetimeToPacked(t) < DatetimeToPacked(u) <==> DatetimeBefore(t, u)
  {
    hide DatetimeToPacked;
    DatetimeToPackedValue(t);
    DatetimeToPackedValue(u);
    HornerStep(Ymdhms(t), Ymdhms(u), TWO24, t.secondPart, u.secondPart);
    HornerStep((t.year * 13 + t.month) * 32 + t.day, (u.year * 13 + u.month) * 32 + u.day, 0x2_0000,
               t.hour * 4096 + t.minute * 64 + t.second, u.hour * 4096 + u.minute * 64 + u.second);
    HornerStep(t.year * 13 + t.month, u.year * 13 + u.month, 32, t.day, u.day);
    HornerStep(t.year, u.year, 13, t.month, u.month);
    HornerStep(t.hour * 64 + t.minute, u.hour * 64 + u.minute, 64, t.second, u.second);
    HornerStep(t.hour, u.hour, 64, t.minute, u.minute);
  }

  lemma DatetimeBytesNumber(q: nat, f: nat, dec: nat)
    requires q < 0x80_0000_0000 && f < 1000000 && dec <= 6
    ensures BigEndian(DatetimeBytes(Pack(false, q, f), dec))
         == (q + DATETIMEF_INT_OFS) * StoredUnit(dec) + f / Granule(dec)
  {
    hide Store1, Store2, Store3, Store5, BigEndian, CDiv, Pack, Uint1, Uint2, Uint3;
    PackParts(false, q, f);
    DatetimeTop(q);
    var top := Store5(q + DATETIMEF_INT_OFS);
    match dec {
      case 1 | 2 =>
        LowByte(f);
        BelowTop(top, Store1(CDiv(f, 10000)));
      case 3 | 4 =>
        LowTwoBytes(f);
        BelowTop(top, Store2(CDiv(f, 100)));
      case 5 | 6 =>
        LowThreeBytes(f);
        BelowTop(top, Store3(f));
      case _ =>
        assert top + [] == top;
    }
  }

  lemma LowByte(f: nat)
    requires f < 1000000
    ensures Uint1(Store1(CDiv(f, 10000))) == f / 10000
  {
    hide Store1, Uint1;
    FractionByte(false, f, 10000, 0x100);
    StoredByte(CDiv(f, 10000));
  }

  lemma LowTwoBytes(f: nat)
    requires f < 1000000
    ensures Uint2(Store2(CDiv(f, 100))) == f / 100
  {
    hide Store2, Uint2;
    FractionByte(false, f, 100, 0x1_0000);
    Store2ThenLoad(CDiv(f, 100));
  }

  lemma LowThreeBytes(f: nat)
    requires f < 1000000
    ensures Uint3(Store3(f)) == f
  {
    hide Store3, Uint3;
    Store3ThenLoad(f);
    DivModUnique(f, 0x100_0000, 0, f);
  }

  lemma StoredByte(x: int)
    ensures Uint1(Store1(x)) == x % 0x100
  {
  }

  lemma DatetimeTop(q: nat)
    requires q < 0x80_0000_0000
    ensures BigEndian(Store5(q + DATETIMEF_INT_OFS)) == q + DATETIMEF_INT_OFS
  {
    hide Store5;
    var x := q + DATETIMEF_INT_OFS;
    Store5ThenLoad(x);
    DivModUnique(x, 0x100_0000_0000, 0, x);
    BigEndianSix(Store5(x));
  }

  /** Datetimes whose microseconds fit compare as byte strings exactly as they compare in the calendar. */
  lemma DatetimeBytesOrder(t: TimeFields, u: TimeFields, dec: nat)
    requires DatetimeInRange(t) && DatetimeInRange(u) && !t.neg && !u.neg && dec <= 6
    requires t.secondPart % Granule(dec) == 0 && u.secondPart % Granule(dec) == 0
    ensures LexLess(DatetimeBytes(DatetimeToPacked(t), dec), DatetimeBytes(DatetimeToPacked(u), dec))
       <==> DatetimeBefore(t, u)
  {
    hide DatetimeBytes, DatetimeToPacked, BigEndian, LexLess, DatetimeBefore, Ymdhms;
    DatetimeToPackedValue(t);
    DatetimeToPackedValue(u);
    DatetimePackingOrder(t, u);
    DatetimeBytesNumber(Ymdhms(t), t.secondPart, dec);
    DatetimeBytesNumber(Ymdhms(u), u.secondPart, dec);
    LexIsNumeric(DatetimeBytes(DatetimeToPacked(t), dec), DatetimeBytes(DatetimeToPacked(u), dec));
    FractionOrder(t.secondPart, u.secondPart, dec);
    HornerStep(Ymdhms(t) + DATETIMEF_INT_OFS, Ymdhms(u) + DATETIMEF_INT_OFS, StoredUnit(dec),
               t.secondPart / Granule(dec), u.secondPart / Granule(dec));
    HornerStep(Ymdhms(t), Ymdhms(u), TWO24, t.secondPart, u.secondPart);
  }

  // ---- TIMESTAMP ---------------------------------------------------------------------

  lemma PositiveFraction(f: nat)
    requires f < 1000000
    ensures At(Store1(f / 10000), 0) * 10000 == f - f % 10000
    ensures Sint2(Store2(f / 100)) * 100 == f - f % 100
    ensures Sint3(Store3(f)) == f
  {
    hide Store2, Store3, Sint2, Sint3;
    SignedFraction2(false, f);
    SignedFraction3(false, f);
  }

  lemma SecondsReadBack(sec: int, low: seq<Byte>)
    ensures Uint4(Store4(sec) + low) == sec % 0x1_0000_0000 && (Store4(sec) + low)[4..] == low
  {
    hide Store4;
    Store4ThenLoad(sec);
    assert (Store4(sec) + low)[..4] == Store4(sec);
  }

  /** The seconds that come back from 32 bits read unsigned into a long: all that a long of 32 bits holds, and in
      one of 64 bits those with 32 unsigned bits. */
  predicate SecondsSurvive(sec: int, long: LongWidth) {
    if long == Long32 then long.Holds(sec) else 0 <= sec < 0x1_0000_0000
  }

  lemma SecondsSurviveExactly(sec: int, long: LongWidth)
    ensures ToSigned(sec % 0x1_0000_0000, long.Modulus()) == sec <==> SecondsSurvive(sec, long)
  {
    if 0 <= sec < 0x1_0000_0000 {
      DivModUnique(sec, 0x1_0000_0000, 0, sec);
    } else if long == Long32 && long.Holds(sec) {
      DivModUnique(sec, 0x1_0000_0000, -1, sec + 0x1_0000_0000);
    }
  }

  /** Seconds and microseconds survive exactly when the microseconds fit the storage and the seconds are those of
      a long of 32 bits or, with a long of 64 bits, have 32 unsigned bits. */
  lemma TimestampRoundTrip(tm: Timeval, dec: nat, long: LongWidth)
    requires tm.usec < 1000000 && dec <= 6
    ensures TimestampFromBinary(TimestampBytes(tm, dec), dec, long) == (tm.sec, tm.usec)
       <==> SecondsSurvive(tm.sec, long) && tm.usec % Granule(dec) == 0
  {
    hide Store1, Store2, Store3, Store4, Sint2, Sint3, Uint4, ToSigned, SecondsSurvive;
    var f := tm.usec;
    PositiveFraction(f);
    SecondsSurviveExactly(tm.sec, long);
    match dec {
      case 1 | 2 => SecondsReadBack(tm.sec, Store1(f / 10000));
      case 3 | 4 => SecondsReadBack(tm.sec, Store2(f / 100));
      case 5 | 6 => SecondsReadBack(tm.sec, Store3(f));
      case _ => SecondsReadBack(tm.sec, []);
    }
  }

  // ---- the bytes by their weights ------------------------------------------------------------

  /** The number of a fraction's bytes: none, one, two or three of them, in units of 1, 10^4, 10^2 or 1 microsecond. */
  function Weighed(whole: int, usec: nat, dec: nat): int
    requires dec <= 6
  {
    match dec
    case 0 => whole
    case 1 | 2 => whole * 256 + usec / 10000
    case 3 | 4 => whole * 65536 + usec / 100
    case _ => whole * 16777216 + usec
  }

  /** The bytes of a stored TIME are one big-endian number: 2^23 on top, to which hours in steps of 4096, minutes in
      steps of 64, seconds and the fraction are added or, of a negative time, from which they are taken. */
  lemma TimeBytesWeighed(t: TimeFields, dec: nat)
    requires TimeInRange(t) && dec <= 6 && t.secondPart % Granule(dec) == 0
    ensures var hours := if t.month > 0 then t.hour else t.day * 24 + t.hour;
            var size := Weighed(hours * 4096 + t.minute * 64 + t.second, t.secondPart, dec);
            BigEndian(TimeBytes(TimeToPacked(t), dec)) == Weighed(8388608, 0, dec) + if t.neg then -size else size
  {
    hide TimeBytes, TimeToPacked, BigEndian;
    TimeToPackedValue(t);
    TimeBytesNumber(t.neg, Hms(t), t.secondPart, dec);
  }

  /** Those of a stored DATETIME: 2^39, then years and months in steps of 32 * 2^17 with 13 months a year, days in steps
      of 2^17, and the time of day. */
  lemma DatetimeBytesWeighed(t: TimeFields, dec: nat)
    requires DatetimeInRange(t) && !t.neg && dec <= 6
    ensures var date := (t.year * 13 + t.month) * 32 + t.day;
            var whole := 549755813888 + date * 131072 + t.hour * 4096 + t.minute * 64 + t.second;
            BigEndian(DatetimeBytes(DatetimeToPacked(t), dec)) == Weighed(whole, t.secondPart, dec)
  {
    hide DatetimeBytes, DatetimeToPacked, BigEndian;
    DatetimeToPackedValue(t);
    DatetimeBytesNumber(Ymdhms(t), t.secondPart, dec);
  }

  /** Those of a stored TIMESTAMP: the seconds modulo 2^32 and the fraction. */
  lemma TimestampBytesWeighed(tm: Timeval, dec: nat)
    requires tm.usec < 1000000 && dec <= 6
    ensures BigEndian(TimestampBytes(tm, dec)) == Weighed(tm.sec % 4294967296, tm.usec, dec)
  {
    hide Store1, Store2, Store3, Store4, BigEndian, Uint1, Uint2, Uint3, Uint4;
    var f, top := tm.usec, Store4(tm.sec);
    Store4ThenLoad(tm.sec);
    FourByteNumber(top);
    match dec {
      case 1 | 2 =>
        LowByte(f);
        BelowTop(top, Store1(f / 10000));
      case 3 | 4 =>
        LowTwoBytes(f);
        BelowTop(top, Store2(f / 100));
      case 5 | 6 =>
        LowThreeBytes(f);
        BelowTop(top, Store3(f));
      case _ =>
        assert top + [] == top;
    }
  }

  lemma FourByteNumber(s: seq<Byte>)
    ensures |s| == 4 ==> BigEndian(s) == Uint4(s)
  {
    BigEndianSmall(s);
  }
}
