/** Packed and binary TIME and DATETIME values (binlog/src/my_time.cpp, binlog/include/my_time.h). */
module Temporal {
  import opened Arith
  import opened Bits
  import opened ByteStore

  datatype TimestampType = NONE | ERROR | DATE | DATETIME | TIME

  /** The fields of a MYSQL_TIME. */
  datatype TimeFields = TimeFields(
    year: nat, month: nat, day: nat, hour: nat, minute: nat, second: nat,
    secondPart: nat, neg: bool, timeType: TimestampType)

  class MysqlTime {
    var year: nat
    var month: nat
    var day: nat
    var hour: nat
    var minute: nat
    var second: nat
    var secondPart: nat
    var neg: bool
    var timeType: TimestampType

    function Fields(): TimeFields
      reads this
    {
      TimeFields(year, month, day, hour, minute, second, secondPart, neg, timeType)
    }

    constructor ()
    {
      year, month, day, hour, minute, second, secondPart := 0, 0, 0, 0, 0, 0, 0;
      neg, timeType := false, NONE;
    }
  }

  const TWO24 := 0x100_0000
  const TIMEF_OFS := 0x8000_0000_0000
  const TIMEF_INT_OFS := 0x80_0000
  const DATETIMEF_INT_OFS := 0x80_0000_0000

  /** The macros MY_PACKED_TIME_*; `>>` floors and `%` truncates. */
  function PackedMake(i: int, f: int): int {
    i * TWO24 + f
  }

  function PackedInt(x: int): int {
    x / TWO24
  }

  function PackedFrac(x: int): int {
    CRem(x, TWO24)
  }

  function MyTimeBinaryLength(dec: nat): nat {
    3 + (dec + 1) / 2
  }

  function MyDatetimeBinaryLength(dec: nat): nat {
    5 + (dec + 1) / 2
  }

  function MyTimestampBinaryLength(dec: nat): nat {
    4 + (dec + 1) / 2
  }

  // ---- TIME --------------------------------------------------------------------------

  /** Shifting an unsigned int left. */
  function ShiftLeft32(x: nat, k: nat): nat {
    x * Pow(2, k) % 0x1_0000_0000
  }

  function TimeToPacked(t: TimeFields): int {
    var hms := BitOr(BitOr(ShiftLeft32((if t.month > 0 then 0 else t.day * 24) + t.hour, 12),
                           ShiftLeft32(t.minute, 6)), t.second);
    var tmp := PackedMake(hms, t.secondPart);
    if t.neg then -tmp else tmp
  }

  /** What TIME_from_longlong_time_packed leaves in the structure. */
  function UnpackedTime(packed: int): TimeFields {
    var tmp := if packed < 0 then -packed else packed;
    var hms := PackedInt(tmp);
    TimeFields(0, 0, 0, hms / 4096 % 1024, hms / 64 % 64, hms % 64, PackedFrac(tmp), packed < 0, TIME)
  }

  method TimeFromPacked(ltime: MysqlTime, packed: int)
    modifies ltime
    ensures ltime.Fields() == UnpackedTime(packed)
  {
    var tmp := packed;
    ltime.neg := tmp < 0;
    if ltime.neg {
      tmp := -tmp;
    }
    var hms := PackedInt(tmp);
    ltime.year, ltime.month, ltime.day := 0, 0, 0;
    ltime.hour := hms / 4096 % 1024;
    ltime.minute := hms / 64 % 64;
    ltime.second := hms % 64;
    ltime.secondPart := PackedFrac(tmp);
    ltime.timeType := TIME;
  }

  function TimeBytes(nr: int, dec: nat): (s: seq<Byte>)
    ensures dec <= 6 ==> |s| == MyTimeBinaryLength(dec)
  {
    match dec
    case 1 | 2 => Store3(TIMEF_INT_OFS + PackedInt(nr)) + Store1(CDiv(PackedFrac(nr), 10000))
    case 3 | 4 => Store3(TIMEF_INT_OFS + PackedInt(nr)) + Store2(CDiv(PackedFrac(nr), 100))
    case 5 | 6 => Store6(nr + TIMEF_OFS)
    case _ => Store3(TIMEF_INT_OFS + PackedInt(nr))
  }

  /** Copies a store's bytes into the buffer. */
  method Put(s: seq<Byte>, ptr: array<Byte>, at: nat)
    requires at + |s| <= ptr.Length
    modifies ptr
    ensures ptr[at..at + |s|] == s
    ensures ptr[..at] == old(ptr[..at]) && ptr[at + |s|..] == old(ptr[at + |s|..])
  {
    forall i | 0 <= i < |s| {
      ptr[at + i] := s[i];
    }
  }

  method TimePackedToBinary(nr: int, ptr: array<Byte>, dec: nat)
    requires ptr.Length >= |TimeBytes(nr, dec)|
    modifies ptr
    ensures ptr[..|TimeBytes(nr, dec)|] == TimeBytes(nr, dec)
    ensures ptr[|TimeBytes(nr, dec)|..] == old(ptr[|TimeBytes(nr, dec)|..])
  {
    match dec {
      case 1 | 2 =>
        Put(Store3(TIMEF_INT_OFS + PackedInt(nr)), ptr, 0);
        Put(Store1(CDiv(PackedFrac(nr), 10000)), ptr, 3);
        assert ptr[..4] == ptr[..3] + ptr[3..4];
      case 3 | 4 =>
        Put(Store3(TIMEF_INT_OFS + PackedInt(nr)), ptr, 0);
        Put(Store2(CDiv(PackedFrac(nr), 100)), ptr, 3);
        assert ptr[..5] == ptr[..3] + ptr[3..5];
      case 5 | 6 =>
        Put(Store6(nr + TIMEF_OFS), ptr, 0);
      case _ =>
        Put(Store3(TIMEF_INT_OFS + PackedInt(nr)), ptr, 0);
    }
  }

  /** Reads a packed time back; a nonzero fraction byte of a negative value borrows from the integer. */
  function TimePackedFromBinary(ptr: seq<Byte>, dec: nat): int
    requires |ptr| >= 3 && (dec <= 6 ==> |ptr| >= MyTimeBinaryLength(dec))
  {
    match dec
    case 1 | 2 =>
      var intpart, frac := Uint3(ptr) - TIMEF_INT_OFS, At(ptr, 3);
      if intpart < 0 && frac != 0 then PackedMake(intpart + 1, (frac - 0x100) * 10000)
      else PackedMake(intpart, frac * 10000)
    case 3 | 4 =>
      var intpart, frac := Uint3(ptr) - TIMEF_INT_OFS, Uint2(ptr[3..]);
      if intpart < 0 && frac != 0 then PackedMake(intpart + 1, (frac - 0x1_0000) * 100)
      else PackedMake(intpart, frac * 100)
    case 5 | 6 => Uint6(ptr) - TIMEF_OFS
    case _ => PackedMake(Uint3(ptr) - TIMEF_INT_OFS, 0)
  }

  // ---- DATETIME ----------------------------------------------------------------------

  function DatetimeToPacked(t: TimeFields): int {
    var ymd := BitOr(ShiftLeft32((t.year * 13 + t.month) % 0x1_0000_0000, 5), t.day);
    var hms := BitOr(BitOr(ShiftLeft32(t.hour, 12), ShiftLeft32(t.minute, 6)), t.second);
    var tmp := PackedMake(BitOr(ymd * Pow(2, 17), hms), t.secondPart);
    if t.neg then -tmp else tmp
  }

  function UnpackedDatetime(packed: int): TimeFields {
    var tmp := if packed < 0 then -packed else packed;
    var ymdhms := PackedInt(tmp);
    var ymd, hms := ymdhms / 0x2_0000, ymdhms % 0x2_0000;
    var ym := ymd / 32;
    TimeFields(ym / 13, ym % 13, ymd % 32, hms / 4096, hms / 64 % 64, hms % 64, PackedFrac(tmp), packed < 0, DATETIME)
  }

  method DatetimeFromPacked(ltime: MysqlTime, packed: int)
    modifies ltime
    ensures ltime.Fields() == UnpackedDatetime(packed)
  {
    var tmp := packed;
    ltime.neg := tmp < 0;
    if ltime.neg {
      tmp := -tmp;
    }
    ltime.secondPart := PackedFrac(tmp);
    var ymdhms := PackedInt(tmp);
    var ymd := ymdhms / 0x2_0000;
    var ym := ymd / 32;
    var hms := ymdhms % 0x2_0000;
    ltime.day := ymd % 32;
    ltime.month := ym % 13;
    ltime.year := ym / 13;
    ltime.second := hms % 64;
    ltime.minute := hms / 64 % 64;
    ltime.hour := hms / 4096;
    ltime.timeType := DATETIME;
  }

  function DatetimeBytes(nr: int, dec: nat): (s: seq<Byte>)
    ensures dec <= 6 ==> |s| == MyDatetimeBinaryLength(dec)
  {
    Store5(PackedInt(nr) + DATETIMEF_INT_OFS) +
    match dec
    case 1 | 2 => Store1(CDiv(PackedFrac(nr), 10000))
    case 3 | 4 => Store2(CDiv(PackedFrac(nr), 100))
    case 5 | 6 => Store3(PackedFrac(nr))
    case _ => []
  }

  method DatetimePackedToBinary(nr: int, ptr: array<Byte>, dec: nat)
    requires ptr.Length >= |DatetimeBytes(nr, dec)|
    modifies ptr
    ensures ptr[..|DatetimeBytes(nr, dec)|] == DatetimeBytes(nr, dec)
    ensures ptr[|DatetimeBytes(nr, dec)|..] == old(ptr[|DatetimeBytes(nr, dec)|..])
  {
    Put(Store5(PackedInt(nr) + DATETIMEF_INT_OFS), ptr, 0);
    match dec {
      case 1 | 2 =>
        Put(Store1(CDiv(PackedFrac(nr), 10000)), ptr, 5);
        assert ptr[..6] == ptr[..5] + ptr[5..6];
      case 3 | 4 =>
        Put(Store2(CDiv(PackedFrac(nr), 100)), ptr, 5);
        assert ptr[..7] == ptr[..5] + ptr[5..7];
      case 5 | 6 =>
        Put(Store3(PackedFrac(nr)), ptr, 5);
        assert ptr[..8] == ptr[..5] + ptr[5..8];
      case _ =>
        assert Store5(PackedInt(nr) + DATETIMEF_INT_OFS) + [] == Store5(PackedInt(nr) + DATETIMEF_INT_OFS);
    }
  }

  function DatetimePackedFromBinary(ptr: seq<Byte>, dec: nat): int
    requires |ptr| >= 5 && (dec <= 6 ==> |ptr| >= MyDatetimeBinaryLength(dec))
  {
    var intpart := Uint5(ptr) - DATETIMEF_INT_OFS;
    match dec
    case 1 | 2 => PackedMake(intpart, SignedChar(ptr[5]) * 10000)
    case 3 | 4 => PackedMake(intpart, Sint2(ptr[5..]) * 100)
    case 5 | 6 => PackedMake(intpart, Sint3(ptr[5..]))
    case _ => PackedMake(intpart, 0)
  }

  // ---- TIMESTAMP ---------------------------------------------------------------------

  /** A struct timeval. */
  datatype Timeval = Timeval(sec: int, usec: nat)

  /** The width of `long`, the type of the seconds. */
  datatype LongWidth = Long32 | Long64 {
    function Modulus(): nat {
      if this == Long32 then 0x1_0000_0000 else 0x1_0000_0000_0000_0000
    }

    predicate Holds(x: int) {
      -(Modulus() / 2) <= x < Modulus() / 2
    }
  }

  function TimestampBytes(tm: Timeval, dec: nat): (s: seq<Byte>)
    ensures dec <= 6 ==> |s| == MyTimestampBinaryLength(dec)
  {
    Store4(tm.sec) +
    match dec
    case 1 | 2 => Store1(tm.usec / 10000)
    case 3 | 4 => Store2(tm.usec / 100)
    case 5 | 6 => Store3(tm.usec)
    case _ => []
  }

  method TimestampToBinary(tm: Timeval, ptr: array<Byte>, dec: nat)
    requires ptr.Length >= |TimestampBytes(tm, dec)|
    modifies ptr
    ensures ptr[..|TimestampBytes(tm, dec)|] == TimestampBytes(tm, dec)
    ensures ptr[|TimestampBytes(tm, dec)|..] == old(ptr[|TimestampBytes(tm, dec)|..])
  {
    Put(Store4(tm.sec), ptr, 0);
    match dec {
      case 1 | 2 =>
        Put(Store1(tm.usec / 10000), ptr, 4);
        assert ptr[..5] == ptr[..4] + ptr[4..5];
      case 3 | 4 =>
        Put(Store2(tm.usec / 100), ptr, 4);
        assert ptr[..6] == ptr[..4] + ptr[4..6];
      case 5 | 6 =>
        Put(Store3(tm.usec), ptr, 4);
        assert ptr[..7] == ptr[..4] + ptr[4..7];
      case _ =>
        assert Store4(tm.sec) + [] == Store4(tm.sec);
    }
  }

  /** Seconds and microseconds. The seconds go from 32 unsigned bits to a long; the two signed loads can give
      a negative fraction. */
  function TimestampFromBinary(ptr: seq<Byte>, dec: nat, long: LongWidth): (int, int)
    requires |ptr| >= 4 && (dec <= 6 ==> |ptr| >= MyTimestampBinaryLength(dec))
  {
    var sec := ToSigned(Uint4(ptr), long.Modulus());
    match dec
    case 1 | 2 => (sec, At(ptr, 4) * 10000)
    case 3 | 4 => (sec, Sint2(ptr[4..]) * 100)
    case 5 | 6 => (sec, Sint3(ptr[4..]))
    case _ => (sec, 0)
  }
}
