/** The high-byte-first load and store macros (binlog/include/myisampack.h), and loads with the low byte first. */
module ByteStore {
  import opened Arith

  /** A C cast to a signed integer of `width` values (two's complement). */
  function ToSigned(x: int, width: nat): int
    requires width > 0
  {
    var u := x % width;
    if 2 * u >= width then u - width else u
  }

  /** The signed reading of an n-byte big-endian word whose unsigned reading is u. */
  function SignedWord(n: nat, u: nat): int
  {
    if 2 * u >= Pow(256, n) then u - Pow(256, n) else u
  }

  function SignedChar(b: Byte): int {
    if b >= 128 then b - 256 else b
  }

  /** One byte of a buffer, as the integer it is promoted to. */
  function At(a: seq<Byte>, i: nat): (b: int)
    requires i < |a|
  {
    a[i]
  }

  function Sint1(a: seq<Byte>): int
    requires |a| >= 1
  {
    SignedChar(a[0])
  }

  function Sint2(a: seq<Byte>): int
    requires |a| >= 2
  {
    ToSigned(a[1] + SignedChar(a[0]) * 0x100, 0x1_0000)
  }

  function Sint3(a: seq<Byte>): int
    requires |a| >= 3
  {
    if a[0] >= 128
    then ToSigned(0xFF00_0000 + 0x1_0000 * At(a, 0) + 0x100 * At(a, 1) + a[2], 0x1_0000_0000)
    else 0x1_0000 * At(a, 0) + 0x100 * At(a, 1) + a[2]
  }

  function Sint4(a: seq<Byte>): int
    requires |a| >= 4
  {
    ToSigned(a[3] + 0x100 * At(a, 2) + 0x1_0000 * At(a, 1) + SignedChar(a[0]) * 0x100_0000, 0x1_0000_0000)
  }

  function Uint2(a: seq<Byte>): nat
    requires |a| >= 2
  {
    a[1] + 0x100 * At(a, 0)
  }

  function Uint3(a: seq<Byte>): nat
    requires |a| >= 3
  {
    a[2] + 0x100 * At(a, 1) + 0x1_0000 * At(a, 0)
  }

  function Uint4(a: seq<Byte>): nat
    requires |a| >= 4
  {
    a[3] + 0x100 * At(a, 2) + 0x1_0000 * At(a, 1) + 0x100_0000 * At(a, 0)
  }

  function Uint5(a: seq<Byte>): nat
    requires |a| >= 5
  {
    a[4] + 0x100 * At(a, 3) + 0x1_0000 * At(a, 2) + 0x100_0000 * At(a, 1) + 0x1_0000_0000 * At(a, 0)
  }

  function Uint6(a: seq<Byte>): nat
    requires |a| >= 6
  {
    a[5] + 0x100 * At(a, 4) + 0x1_0000 * At(a, 3) + 0x100_0000 * At(a, 2) + (a[1] + 0x100 * At(a, 0)) * 0x1_0000_0000
  }

  // The stores keep the low bytes of their argument, whatever its sign.

  function Store1(a: int): (s: seq<Byte>)
    ensures |s| == 1
  {
    [a % 0x100]
  }

  function Store2(a: int): (s: seq<Byte>)
    ensures |s| == 2
  {
    var temp := a % 0x1_0000_0000;
    [temp / 0x100 % 0x100, temp % 0x100]
  }

  function Store3(a: int): (s: seq<Byte>)
    ensures |s| == 3
  {
    var temp := a % 0x1_0000_0000;
    [temp / 0x1_0000 % 0x100, temp / 0x100 % 0x100, temp % 0x100]
  }

  function Store4(a: int): (s: seq<Byte>)
    ensures |s| == 4
  {
    var temp := a % 0x1_0000_0000;
    [temp / 0x100_0000, temp / 0x1_0000 % 0x100, temp / 0x100 % 0x100, temp % 0x100]
  }

  function Store5(a: int): (s: seq<Byte>)
    ensures |s| == 5
  {
    [a / 0x1_0000_0000 % 0x100] + Store4(a)
  }

  function Store6(a: int): (s: seq<Byte>)
    ensures |s| == 6
  {
    [a / 0x1_0000_0000 / 0x100 % 0x100, a / 0x1_0000_0000 % 0x100] + Store4(a)
  }

  lemma Store2ThenLoad(a: int)
    ensures Uint2(Store2(a)) == a % 0x1_0000
  {
    var temp := a % 0x1_0000_0000;
    ModSplit(a, 0x1_0000, 0x1_0000);
    DivModUnique(temp, 0x1_0000, a / 0x1_0000 % 0x1_0000, a % 0x1_0000);
    ModSplit(temp, 0x100, 0x100);
  }

  lemma Store3ThenLoad(a: int)
    ensures Uint3(Store3(a)) == a % 0x100_0000
  {
    var temp := a % 0x1_0000_0000;
    ModSplit(a, 0x100_0000, 0x100);
    DivDiv(temp, 0x100, 0x100);
    DivDiv(temp, 0x1_0000, 0x100);
    ModSplit(a / 0x100_0000, 0x100, 0x100);
    FourDigits(temp, temp / 0x100, temp / 0x1_0000, temp / 0x100_0000);
  }

  /** The base-256 digits of a number, from its successive quotients. */
  lemma FourDigits(x: nat, x1: nat, x2: nat, x3: nat)
    requires x1 == x / 0x100 && x2 == x1 / 0x100 && x3 == x2 / 0x100
    ensures x == 0x100_0000 * x3 + 0x1_0000 * (x2 % 0x100) + 0x100 * (x1 % 0x100) + x % 0x100
  {
  }

  lemma Store4ThenLoad(a: int)
    ensures Uint4(Store4(a)) == a % 0x1_0000_0000
  {
    var temp := a % 0x1_0000_0000;
    DivDiv(temp, 0x100, 0x100);
    DivDiv(temp, 0x1_0000, 0x100);
    FourDigits(temp, temp / 0x100, temp / 0x1_0000, temp / 0x100_0000);
  }

  lemma Store5ThenLoad(a: int)
    ensures Uint5(Store5(a)) == a % 0x100_0000_0000
  {
    Store4ThenLoad(a);
    ModSplit(a, 0x1_0000_0000, 0x100);
  }

  lemma Store6ThenLoad(a: int)
    ensures Uint6(Store6(a)) == a % 0x1_0000_0000_0000
  {
    Store4ThenLoad(a);
    ModSplit(a, 0x1_0000_0000, 0x1_0000);
    ModSplit(a / 0x1_0000_0000, 0x100, 0x100);
  }

  /** The signed load the decimal decoder selects by byte count. */
  function Sint(n: nat, a: seq<Byte>): int
    requires 1 <= n <= 4 && |a| >= n
  {
    match n
    case 1 => Sint1(a)
    case 2 => Sint2(a)
    case 3 => Sint3(a)
    case _ => Sint4(a)
  }

  lemma BigEndianSmall(a: seq<Byte>)
    ensures |a| == 1 ==> BigEndian(a) == a[0]
    ensures |a| == 2 ==> BigEndian(a) == Uint2(a)
    ensures |a| == 3 ==> BigEndian(a) == Uint3(a)
    ensures |a| == 4 ==> BigEndian(a) == Uint4(a)
  {
    if 1 < |a| <= 4 {
      BigEndianSmall(a[..|a| - 1]);
    }
  }

  /** Every signed load is the sign-extended big-endian word. */
  lemma SintIsSignedWord(n: nat, a: seq<Byte>)
    requires 1 <= n <= 4 && |a| >= n
    ensures Sint(n, a) == SignedWord(n, BigEndian(a[..n]))
  {
    match n
    case 1 => BigEndianSmall(a[..1]); Pow256Table();
    case 2 => Sint2IsSigned(a);
    case 3 => Sint3IsSigned(a);
    case _ => Sint4IsSigned(a);
  }

  lemma Sint2IsSigned(a: seq<Byte>)
    requires |a| >= 2
    ensures Sint2(a) == SignedWord(2, BigEndian(a[..2]))
  {
    BigEndianSmall(a[..2]);
    Pow256Table();
    SignedSum(At(a, 0), At(a, 1), 0x100);
  }

  lemma Sint3IsSigned(a: seq<Byte>)
    requires |a| >= 3
    ensures Sint3(a) == SignedWord(3, BigEndian(a[..3]))
  {
    BigEndianSmall(a[..3]);
    Pow256Table();
    var whole := 0x1_0000 * At(a, 0) + 0x100 * At(a, 1) + At(a, 2);
    if a[0] >= 128 {
      DivModUnique(0xFF00_0000 + whole, 0x1_0000_0000, 0, 0xFF00_0000 + whole);
    }
  }

  lemma Sint4IsSigned(a: seq<Byte>)
    requires |a| >= 4
    ensures Sint4(a) == SignedWord(4, BigEndian(a[..4]))
  {
    BigEndianSmall(a[..4]);
    Pow256Table();
    SignedSum(At(a, 0), 0x1_0000 * At(a, 1) + 0x100 * At(a, 2) + At(a, 3), 0x100_0000);
  }

  /** A signed top byte above unsigned low ones is the signed reading of the whole. */
  lemma SignedSum(top: Byte, low: nat, unit: nat)
    requires unit in {0x100, 0x1_0000, 0x100_0000} && low < unit
    ensures var whole := unit * top + low;
            var signed := if top >= 128 then whole - 256 * unit else whole;
            ToSigned(low + unit * SignedChar(top), 256 * unit) == signed
            && (2 * whole >= 256 * unit <==> top >= 128)
  {
    var x := low + unit * SignedChar(top);
    var k := if top >= 128 then -1 else 0;
    if unit == 0x100 {
      DivModUnique(x, 0x1_0000, k, x - k * 0x1_0000);
    } else if unit == 0x1_0000 {
      DivModUnique(x, 0x100_0000, k, x - k * 0x100_0000);
    } else {
      DivModUnique(x, 0x1_0000_0000, k, x - k * 0x1_0000_0000);
    }
  }

  // ---- low byte first --------------------------------------------------------------

  /** The low n bytes of a buffer as a little-endian number. */
  function LittleEndian(data: seq<Byte>, n: nat): nat
    requires n <= |data|
  {
    if n == 0 then 0 else At(data, 0) + 0x100 * LittleEndian(data[1..], n - 1)
  }

  lemma {:induction false} LittleEndianOfPrefix(a: seq<Byte>, k: nat, n: nat)
    requires k <= n <= |a|
    ensures LittleEndian(a[..n], k) == LittleEndian(a, k)
  {
    if k > 0 {
      LittleEndianOfPrefix(a[1..], k - 1, n - 1);
      assert a[..n][1..] == a[1..][..n - 1];
    }
  }

  lemma LittleEndianTable(data: seq<Byte>)
    requires |data| >= 4
    ensures LittleEndian(data, 1) == At(data, 0)
    ensures LittleEndian(data, 2) == At(data, 0) + 0x100 * At(data, 1)
    ensures LittleEndian(data, 3) == At(data, 0) + 0x100 * At(data, 1) + 0x1_0000 * At(data, 2)
    ensures LittleEndian(data, 4)
         == At(data, 0) + 0x100 * At(data, 1) + 0x1_0000 * At(data, 2) + 0x100_0000 * At(data, 3)
  {
    assert LittleEndian(data[3..], 1) == At(data, 3);
    assert LittleEndian(data[2..], 2) == At(data, 2) + 0x100 * At(data, 3);
    assert LittleEndian(data[2..], 1) == At(data, 2);
    assert data[1..][2..] == data[3..] && data[1..][1..] == data[2..];
    assert LittleEndian(data[1..], 1) == At(data, 1);
    assert LittleEndian(data[1..], 3) == At(data, 1) + 0x100 * LittleEndian(data[2..], 2);
  }
}
