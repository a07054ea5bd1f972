/** The block transform of MD5 in 64-bit words (public/Md5.cpp, where uint32 is unsigned long), against the
    32-bit algorithm of section 3.4 of RFC 1321. */
module Md5Words {

  // ---- 64-bit words and their low halves ---------------------------------------------------

  function Low(x: bv64): bv32 {
    (x & 0xFFFF_FFFF) as bv32
  }

  function Widen(x: bv32): bv64 {
    x as bv64
  }

  // The sums have names, so that proofs about formulas need not look at their bits.

  function Add64(x: bv64, y: bv64): bv64 {
    x + y
  }

  function Add32(x: bv32, y: bv32): bv32 {
    x + y
  }

  lemma LowOfSum(x: bv64, y: bv64)
    ensures Low(x + y) == Add32((x & 0xFFFF_FFFF) as bv32, (y & 0xFFFF_FFFF) as bv32)
  {
  }

  lemma LowAdd(x: bv64, y: bv64)
    ensures Low(Add64(x, y)) == Add32(Low(x), Low(y))
  {
    hide Add32;
    LowOfSum(x, y);
  }

  /** The macro S: a left shift that is not cut off, and the bits of the low half that leave it. */
  function Rotate64(x: bv64, s: bv6): bv64
    requires 0 < s < 32
  {
    (x << s) | ((x & 0xFFFF_FFFF) >> (32 - s))
  }

  /** X <<< s of the RFC. */
  function Rotate32(x: bv32, s: bv6): bv32
    requires 0 < s < 32
  {
    (x << s) | (x >> (32 - s))
  }

  lemma LowRotate(x: bv64, s: bv6)
    requires 0 < s < 32
    ensures Low(Rotate64(x, s)) == Rotate32(Low(x), s)
  {
  }

  // ---- the tables ----------------------------------------------------------------------------

  const K: seq<seq<nat>> := [
    [0, 1, 2, 3, 4, 5, 6, 7, 8, 9, 10, 11, 12, 13, 14, 15],
    [1, 6, 11, 0, 5, 10, 15, 4, 9, 14, 3, 8, 13, 2, 7, 12],
    [5, 8, 11, 14, 1, 4, 7, 10, 13, 0, 3, 6, 9, 12, 15, 2],
    [0, 7, 14, 5, 12, 3, 10, 1, 8, 15, 6, 13, 4, 11, 2, 9]
  ]

  const S: seq<seq<bv6>> := [[7, 12, 17, 22], [5, 9, 14, 20], [4, 11, 16, 23], [6, 10, 15, 21]]

  const T: seq<seq<bv32>> := [
    [0xD76AA478, 0xE8C7B756, 0x242070DB, 0xC1BDCEEE, 0xF57C0FAF, 0x4787C62A, 0xA8304613, 0xFD469501,
     0x698098D8, 0x8B44F7AF, 0xFFFF5BB1, 0x895CD7BE, 0x6B901122, 0xFD987193, 0xA679438E, 0x49B40821],
    [0xF61E2562, 0xC040B340, 0x265E5A51, 0xE9B6C7AA, 0xD62F105D, 0x02441453, 0xD8A1E681, 0xE7D3FBC8,
     0x21E1CDE6, 0xC33707D6, 0xF4D50D87, 0x455A14ED, 0xA9E3E905, 0xFCEFA3F8, 0x676F02D9, 0x8D2A4C8A],
    [0xFFFA3942, 0x8771F681, 0x6D9D6122, 0xFDE5380C, 0xA4BEEA44, 0x4BDECFA9, 0xF6BB4B60, 0xBEBFBC70,
     0x289B7EC6, 0xEAA127FA, 0xD4EF3085, 0x04881D05, 0xD9D4D039, 0xE6DB99E5, 0x1FA27CF8, 0xC4AC5665],
    [0xF4292244, 0x432AFF97, 0xAB9423A7, 0xFC93A039, 0x655B59C3, 0x8F0CCC92, 0xFFEFF47D, 0x85845DD1,
     0x6FA87E4F, 0xFE2CE6E0, 0xA3014314, 0x4E0811A1, 0xF7537E82, 0xBD3AF235, 0x2AD7D2BB, 0xEB86D391]
  ]

  /** The word of the block that step i of a round uses, by the pattern of the RFC. */
  function WordIndex(round: nat, i: nat): (k: nat)
    ensures k < 16
  {
    match round
    case 0 => i % 16
    case 1 => (1 + 5 * i) % 16
    case 2 => (5 + 3 * i) % 16
    case _ => 7 * i % 16
  }

  /** The shift amounts of the RFC: they are the same in every fourth step. */
  function ShiftAmount(round: nat, i: nat): (s: bv6)
    ensures 0 < s < 32
  {
    match round
    case 0 => (match i % 4 case 0 => 7 case 1 => 12 case 2 => 17 case _ => 22)
    case 1 => (match i % 4 case 0 => 5 case 1 => 9 case 2 => 14 case _ => 20)
    case 2 => (match i % 4 case 0 => 4 case 1 => 11 case 2 => 16 case _ => 23)
    case _ => (match i % 4 case 0 => 6 case 1 => 10 case 2 => 15 case _ => 21)
  }

  predicate ShiftsBy(row: seq<bv6>, round: nat) {
    |row| == 4 && row[0] == ShiftAmount(round, 0) && row[1] == ShiftAmount(round, 1)
    && row[2] == ShiftAmount(round, 2) && row[3] == ShiftAmount(round, 3)
  }

  predicate FollowsPattern(row: seq<nat>, round: nat) {
    |row| == 16
    && row[0] == WordIndex(round, 0) && row[1] == WordIndex(round, 1) && row[2] == WordIndex(round, 2)
    && row[3] == WordIndex(round, 3) && row[4] == WordIndex(round, 4) && row[5] == WordIndex(round, 5)
    && row[6] == WordIndex(round, 6) && row[7] == WordIndex(round, 7) && row[8] == WordIndex(round, 8)
    && row[9] == WordIndex(round, 9) && row[10] == WordIndex(round, 10) && row[11] == WordIndex(round, 11)
    && row[12] == WordIndex(round, 12) && row[13] == WordIndex(round, 13) && row[14] == WordIndex(round, 14)
    && row[15] == WordIndex(round, 15)
  }

  lemma TableRows()
    ensures |K| == |S| == |T| == 4
    ensures FollowsPattern(K[0], 0) && FollowsPattern(K[1], 1) && FollowsPattern(K[2], 2) && FollowsPattern(K[3], 3)
    ensures |T[0]| == 16 && |T[1]| == 16 && |T[2]| == 16 && |T[3]| == 16
    ensures ShiftsBy(S[0], 0) && ShiftsBy(S[1], 1) && ShiftsBy(S[2], 2) && ShiftsBy(S[3], 3)
  {
  }

  lemma PatternAt(row: seq<nat>, round: nat, i: nat)
    requires FollowsPattern(row, round) && i < 16
    ensures row[i] == WordIndex(round, i)
  {
  }

  lemma ShiftAt(row: seq<bv6>, round: nat, i: nat)
    requires ShiftsBy(row, round) && i < 16
    ensures row[i % 4] == ShiftAmount(round, i)
  {
    var j := i % 4;
    assert ShiftAmount(round, j) == ShiftAmount(round, i);
  }

  /** The tables of the program have the indices and the shift amounts of the RFC. */
  lemma Tables(round: nat, i: nat)
    requires round < 4 && i < 16
    ensures |K| == |S| == |T| == 4 && |K[round]| == |T[round]| == 16 && |S[round]| == 4
    ensures K[round][i] == WordIndex(round, i)
    ensures S[round][i % 4] == ShiftAmount(round, i)
  {
    hide FollowsPattern, ShiftsBy, ShiftAmount, WordIndex, K, S, T;
    TableRows();
    assert FollowsPattern(K[round], round);
    PatternAt(K[round], round, i);
    assert ShiftsBy(S[round], round);
    ShiftAt(S[round], round, i);
    assert |T[round]| == 16;
  }

  // ---- one step --------------------------------------------------------------------------------

  // The four functions as the program computes them.

  function F64(x: bv64, y: bv64, z: bv64): bv64 {
    z ^ (x & (y ^ z))
  }

  function G64(x: bv64, y: bv64, z: bv64): bv64 {
    y ^ (z & (x ^ y))
  }

  function H64(x: bv64, y: bv64, z: bv64): bv64 {
    x ^ y ^ z
  }

  function I64(x: bv64, y: bv64, z: bv64): bv64 {
    y ^ (x | !z)
  }

  // F, G, H and I of the RFC.

  function F32(x: bv32, y: bv32, z: bv32): bv32 {
    (x & y) | (!x & z)
  }

  function G32(x: bv32, y: bv32, z: bv32): bv32 {
    (x & z) | (y & !z)
  }

  function H32(x: bv32, y: bv32, z: bv32): bv32 {
    x ^ y ^ z
  }

  function I32(x: bv32, y: bv32, z: bv32): bv32 {
    y ^ (x | !z)
  }

  lemma LowF(x: bv64, y: bv64, z: bv64)
    ensures Low(F64(x, y, z)) == F32(Low(x), Low(y), Low(z))
  {
  }

  lemma LowG(x: bv64, y: bv64, z: bv64)
    ensures Low(G64(x, y, z)) == G32(Low(x), Low(y), Low(z))
  {
  }

  lemma LowH(x: bv64, y: bv64, z: bv64)
    ensures Low(H64(x, y, z)) == H32(Low(x), Low(y), Low(z))
  {
  }

  lemma LowI(x: bv64, y: bv64, z: bv64)
    ensures Low(I64(x, y, z)) == I32(Low(x), Low(y), Low(z))
  {
  }

  function Mix64(round: nat, x: bv64, y: bv64, z: bv64): bv64 {
    match round
    case 0 => F64(x, y, z)
    case 1 => G64(x, y, z)
    case 2 => H64(x, y, z)
    case _ => I64(x, y, z)
  }

  function Mix32(round: nat, x: bv32, y: bv32, z: bv32): bv32 {
    match round
    case 0 => F32(x, y, z)
    case 1 => G32(x, y, z)
    case 2 => H32(x, y, z)
    case _ => I32(x, y, z)
  }

  lemma LowMix(round: nat, x: bv64, y: bv64, z: bv64)
    ensures Low(Mix64(round, x, y, z)) == Mix32(round, Low(x), Low(y), Low(z))
  {
    hide Low, F64, G64, H64, I64, F32, G32, H32, I32;
    match round {
      case 0 => LowF(x, y, z);
      case 1 => LowG(x, y, z);
      case 2 => LowH(x, y, z);
      case _ => LowI(x, y, z);
    }
  }

  /** The macro P: a += f(b,c,d) + X[k] + t, then a = S(a,s) + b. */
  function P64(round: nat, a: bv64, b: bv64, c: bv64, d: bv64, x: bv64, s: bv6, t: bv32): bv64
    requires 0 < s < 32
  {
    Add64(Rotate64(Add64(a, Add64(Add64(Mix64(round, b, c, d), x), Widen(t))), s), b)
  }

  /** a = b + ((a + f(b,c,d) + X[k] + T[i]) <<< s), whose sums are modulo 2^32 and so in any order. */
  function P32(round: nat, a: bv32, b: bv32, c: bv32, d: bv32, x: bv32, s: bv6, t: bv32): bv32
    requires 0 < s < 32
  {
    Add32(Rotate32(Add32(a, Add32(Add32(Mix32(round, b, c, d), x), t)), s), b)
  }

  lemma LowConstant(t: bv32)
    ensures Low(Widen(t)) == t
  {
  }

  lemma LowP(round: nat, a: bv64, b: bv64, c: bv64, d: bv64, x: bv64, s: bv6, t: bv32)
    requires 0 < s < 32
    ensures Low(P64(round, a, b, c, d, x, s, t)) == P32(round, Low(a), Low(b), Low(c), Low(d), Low(x), s, t)
  {
    hide Low, Widen, Rotate64, Rotate32, Mix64, Mix32, Add64, Add32;
    var f := Mix64(round, b, c, d);
    var terms := Add64(Add64(f, x), Widen(t));
    var sum := Add64(a, terms);
    LowMix(round, b, c, d);
    LowConstant(t);
    LowAdd(f, x);
    LowAdd(Add64(f, x), Widen(t));
    LowAdd(a, terms);
    LowRotate(sum, s);
    LowAdd(Rotate64(sum, s), b);
  }

  // ---- words of a block --------------------------------------------------------------------------

  function Join64(p: bv8, q: bv8, r: bv8, s: bv8): bv64 {
    (p as bv64) | ((q as bv64) << 8) | ((r as bv64) << 16) | ((s as bv64) << 24)
  }

  function Join32(p: bv8, q: bv8, r: bv8, s: bv8): bv32 {
    (p as bv32) | ((q as bv32) << 8) | ((r as bv32) << 16) | ((s as bv32) << 24)
  }

  lemma LowJoin(p: bv8, q: bv8, r: bv8, s: bv8)
    ensures Low(Join64(p, q, r, s)) == Join32(p, q, r, s)
  {
  }

  /** GET_UINT32. */
  function Get64(data: seq<bv8>, i: nat): bv64
    requires i + 4 <= |data|
  {
    Join64(data[i], data[i + 1], data[i + 2], data[i + 3])
  }

  function Get32(data: seq<bv8>, i: nat): bv32
    requires i + 4 <= |data|
  {
    Join32(data[i], data[i + 1], data[i + 2], data[i + 3])
  }

  lemma LowGet(data: seq<bv8>, i: nat)
    requires i + 4 <= |data|
    ensures Low(Get64(data, i)) == Get32(data, i)
  {
    hide Low, Join64, Join32;
    LowJoin(data[i], data[i + 1], data[i + 2], data[i + 3]);
  }

  /** PUT_UINT32. */
  function Put64(n: bv64): seq<bv8> {
    [(n & 0xFF) as bv8, ((n >> 8) & 0xFF) as bv8, ((n >> 16) & 0xFF) as bv8, ((n >> 24) & 0xFF) as bv8]
  }

  function Put32(n: bv32): seq<bv8> {
    [(n & 0xFF) as bv8, ((n >> 8) & 0xFF) as bv8, ((n >> 16) & 0xFF) as bv8, ((n >> 24) & 0xFF) as bv8]
  }

  lemma LowPut(n: bv64)
    ensures Put64(n) == Put32(Low(n))
  {
  }

  // ---- the block -----------------------------------------------------------------------------------

  datatype Regs64 = Regs64(a: bv64, b: bv64, c: bv64, d: bv64) {
    function Low(): Regs32 {
      Regs32(LowHalf(a), LowHalf(b), LowHalf(c), LowHalf(d))
    }
  }

  function LowHalf(x: bv64): bv32 {
    Low(x)
  }

  datatype Regs32 = Regs32(a: bv32, b: bv32, c: bv32, d: bv32)

  /** The registers change roles from one step to the next. */
  function Turn64(role: nat, round: nat, r: Regs64, x: bv64, s: bv6, t: bv32): Regs64
    requires 0 < s < 32
  {
    match role
    case 0 => r.(a := P64(round, r.a, r.b, r.c, r.d, x, s, t))
    case 1 => r.(d := P64(round, r.d, r.a, r.b, r.c, x, s, t))
    case 2 => r.(c := P64(round, r.c, r.d, r.a, r.b, x, s, t))
    case _ => r.(b := P64(round, r.b, r.c, r.d, r.a, x, s, t))
  }

  function Turn32(role: nat, round: nat, r: Regs32, x: bv32, s: bv6, t: bv32): Regs32
    requires 0 < s < 32
  {
    match role
    case 0 => r.(a := P32(round, r.a, r.b, r.c, r.d, x, s, t))
    case 1 => r.(d := P32(round, r.d, r.a, r.b, r.c, x, s, t))
    case 2 => r.(c := P32(round, r.c, r.d, r.a, r.b, x, s, t))
    case _ => r.(b := P32(round, r.b, r.c, r.d, r.a, x, s, t))
  }

  /** Step i of a round, with the tables of the program, and with the pattern and the shift amounts of the RFC. */
  function Step64(round: nat, i: nat, r: Regs64, data: seq<bv8>): Regs64
    requires round < 4 && i < 16 && |data| == 64
  {
    Tables(round, i);
    Turn64(i % 4, round, r, Get64(data, 4 * K[round][i]), S[round][i % 4], T[round][i])
  }

  function Step32(round: nat, i: nat, r: Regs32, data: seq<bv8>): Regs32
    requires round < 4 && i < 16 && |data| == 64
  {
    Tables(round, i);
    Turn32(i % 4, round, r, Get32(data, 4 * WordIndex(round, i)), ShiftAmount(round, i), T[round][i])
  }

  lemma LowStep(round: nat, i: nat, r: Regs64, data: seq<bv8>)
    requires round < 4 && i < 16 && |data| == 64
    ensures Step64(round, i, r, data).Low() == Step32(round, i, r.Low(), data)
  {
    hide Low, P64, P32, Get64, Get32, WordIndex, ShiftAmount, K, S, T;
    Tables(round, i);
    var k, s, t := K[round][i], S[round][i % 4], T[round][i];
    var x, y := Get64(data, 4 * k), Get32(data, 4 * k);
    LowGet(data, 4 * k);
    assert Step64(round, i, r, data).Low() == Turn64(i % 4, round, r, x, s, t).Low();
    assert Step32(round, i, r.Low(), data) == Turn32(i % 4, round, r.Low(), y, s, t);
    LowTurn(i % 4, round, r, x, s, t);
  }

  lemma LowTurn(role: nat, round: nat, r: Regs64, x: bv64, s: bv6, t: bv32)
    requires 0 < s < 32
    ensures Turn64(role, round, r, x, s, t).Low() == Turn32(role, round, r.Low(), Low(x), s, t)
  {
    hide Low, P64, P32;
    match role {
      case 0 => LowP(round, r.a, r.b, r.c, r.d, x, s, t);
      case 1 => LowP(round, r.d, r.a, r.b, r.c, x, s, t);
      case 2 => LowP(round, r.c, r.d, r.a, r.b, x, s, t);
      case _ => LowP(round, r.b, r.c, r.d, r.a, x, s, t);
    }
  }

  /** The first n of the 64 steps of the program. */
  function Steps64(n: nat, r: Regs64, data: seq<bv8>): Regs64
    requires n <= 64 && |data| == 64
  {
    if n == 0 then r else Step64((n - 1) / 16, (n - 1) % 16, Steps64(n - 1, r, data), data)
  }

  function Steps32(n: nat, r: Regs32, data: seq<bv8>): Regs32
    requires n <= 64 && |data| == 64
  {
    if n == 0 then r else Step32((n - 1) / 16, (n - 1) % 16, Steps32(n - 1, r, data), data)
  }

  lemma {:induction false} LowSteps(n: nat, r: Regs64, data: seq<bv8>)
    requires n <= 64 && |data| == 64
    ensures Steps64(n, r, data).Low() == Steps32(n, r.Low(), data)
  {
    hide Step64, Step32, Regs64.Low;
    if n > 0 {
      LowSteps(n - 1, r, data);
      LowStep((n - 1) / 16, (n - 1) % 16, Steps64(n - 1, r, data), data);
    }
  }

  function Process64(state: Regs64, data: seq<bv8>): Regs64
    requires |data| == 64
  {
    var r := Steps64(64, state, data);
    Regs64(Add64(state.a, r.a), Add64(state.b, r.b), Add64(state.c, r.c), Add64(state.d, r.d))
  }

  function Process32(state: Regs32, data: seq<bv8>): Regs32
    requires |data| == 64
  {
    var r := Steps32(64, state, data);
    Regs32(Add32(state.a, r.a), Add32(state.b, r.b), Add32(state.c, r.c), Add32(state.d, r.d))
  }

  /** In 64-bit words, whatever their high halves hold, a block changes the low halves as the RFC says. */
  lemma WidthIndependence(state: Regs64, data: seq<bv8>)
    requires |data| == 64
    ensures Process64(state, data).Low() == Process32(state.Low(), data)
  {
    hide Low, Steps64, Steps32, Add64, Add32;
    LowSteps(64, state, data);
    var r := Steps64(64, state, data);
    LowAdd(state.a, r.a);
    LowAdd(state.b, r.b);
    LowAdd(state.c, r.c);
    LowAdd(state.d, r.d);
  }
}
