/** The column bitmap and its population count (binlog/src/my_bitmap.cpp, binlog/include/my_bit.h). */
module Bitmap {
  import opened Arith
  import opened Bits
  import opened ByteStore

  /** The 256 entries of _my_bits_nbits, sixteen to a row. */
  const NBITS: seq<seq<nat>> := [
    [0, 1, 1, 2, 1, 2, 2, 3, 1, 2, 2, 3, 2, 3, 3, 4],
    [1, 2, 2, 3, 2, 3, 3, 4, 2, 3, 3, 4, 3, 4, 4, 5],
    [1, 2, 2, 3, 2, 3, 3, 4, 2, 3, 3, 4, 3, 4, 4, 5],
    [2, 3, 3, 4, 3, 4, 4, 5, 3, 4, 4, 5, 4, 5, 5, 6],
    [1, 2, 2, 3, 2, 3, 3, 4, 2, 3, 3, 4, 3, 4, 4, 5],
    [2, 3, 3, 4, 3, 4, 4, 5, 3, 4, 4, 5, 4, 5, 5, 6],
    [2, 3, 3, 4, 3, 4, 4, 5, 3, 4, 4, 5, 4, 5, 5, 6],
    [3, 4, 4, 5, 4, 5, 5, 6, 4, 5, 5, 6, 5, 6, 6, 7],
    [1, 2, 2, 3, 2, 3, 3, 4, 2, 3, 3, 4, 3, 4, 4, 5],
    [2, 3, 3, 4, 3, 4, 4, 5, 3, 4, 4, 5, 4, 5, 5, 6],
    [2, 3, 3, 4, 3, 4, 4, 5, 3, 4, 4, 5, 4, 5, 5, 6],
    [3, 4, 4, 5, 4, 5, 5, 6, 4, 5, 5, 6, 5, 6, 6, 7],
    [2, 3, 3, 4, 3, 4, 4, 5, 3, 4, 4, 5, 4, 5, 5, 6],
    [3, 4, 4, 5, 4, 5, 5, 6, 4, 5, 5, 6, 5, 6, 6, 7],
    [3, 4, 4, 5, 4, 5, 5, 6, 4, 5, 5, 6, 5, 6, 6, 7],
    [4, 5, 5, 6, 5, 6, 6, 7, 5, 6, 6, 7, 6, 7, 7, 8]
  ]

  /** How many bits of a number are set. */
  function Popcount(b: nat): nat {
    if b == 0 then 0 else b % 2 + Popcount(b / 2)
  }

  function BitAt(a: nat, k: nat): (bit: nat)
    ensures bit < 2
  {
    a / Pow(2, k) % 2
  }

  // ---- the table -----------------------------------------------------------------------

  predicate CountsFrom(row: seq<nat>, k: nat) {
    && |row| == 16 && row[0] == k && row[1] == k + 1 && row[2] == k + 1 && row[3] == k + 2
    && row[4] == k + 1 && row[5] == k + 2 && row[6] == k + 2 && row[7] == k + 3
    && row[8] == k + 1 && row[9] == k + 2 && row[10] == k + 2 && row[11] == k + 3
    && row[12] == k + 2 && row[13] == k + 3 && row[14] == k + 3 && row[15] == k + 4
  }

  lemma TableRows()
    ensures |NBITS| == 16
    ensures CountsFrom(NBITS[0], 0) && CountsFrom(NBITS[1], 1) && CountsFrom(NBITS[2], 1) && CountsFrom(NBITS[3], 2)
    ensures CountsFrom(NBITS[4], 1) && CountsFrom(NBITS[5], 2) && CountsFrom(NBITS[6], 2) && CountsFrom(NBITS[7], 3)
    ensures CountsFrom(NBITS[8], 1) && CountsFrom(NBITS[9], 2) && CountsFrom(NBITS[10], 2) && CountsFrom(NBITS[11], 3)
    ensures CountsFrom(NBITS[12], 2) && CountsFrom(NBITS[13], 3) && CountsFrom(NBITS[14], 3)
         && CountsFrom(NBITS[15], 4)
  {
  }

  lemma NibbleCounts()
    ensures Popcount(0) == 0 && Popcount(1) == 1 && Popcount(2) == 1 && Popcount(3) == 2
    ensures Popcount(4) == 1 && Popcount(5) == 2 && Popcount(6) == 2 && Popcount(7) == 3
    ensures Popcount(8) == 1 && Popcount(9) == 2 && Popcount(10) == 2 && Popcount(11) == 3
    ensures Popcount(12) == 2 && Popcount(13) == 3 && Popcount(14) == 3 && Popcount(15) == 4
  {
  }

  lemma RowEntry(row: seq<nat>, k: nat, i: nat)
    requires CountsFrom(row, k) && i < 16
    ensures row[i] == k + Popcount(i)
  {
    hide Popcount;
    NibbleCounts();
  }

  lemma RowStart(r: nat)
    requires r < 16
    ensures |NBITS| == 16 && CountsFrom(NBITS[r], Popcount(r))
  {
    hide Popcount, NBITS, CountsFrom;
    TableRows();
    NibbleCounts();
  }

  function Nbits(b: Byte): nat {
    RowStart(b / 16);
    NBITS[b / 16][b % 16]
  }

  lemma {:induction false} PopcountSplit(a: nat, k: nat, b: nat)
    requires b < Pow(2, k)
    ensures Popcount(a * Pow(2, k) + b) == Popcount(a) + Popcount(b)
  {
    if k == 0 {
      assert a * Pow(2, 0) == a;
    } else {
      var p := Pow(2, k - 1);
      var x := a * Pow(2, k) + b;
      MulAssociative(a, 2, p);
      DivModUnique(x, 2, a * p + b / 2, b % 2);
      PopcountSplit(a, k - 1, b / 2);
      PopcountHalf(x);
      PopcountHalf(b);
    }
  }

  lemma PopcountHalf(x: nat)
    ensures Popcount(x) == x % 2 + Popcount(x / 2)
  {
  }

  lemma NibbleBound(n: nat)
    requires n < 16
    ensures Popcount(n) <= 4
  {
    hide Popcount;
    NibbleCounts();
  }

  lemma NibblesOf(b: nat)
    ensures Popcount(b) == Popcount(b / 16) + Popcount(b % 16)
  {
    hide Popcount;
    Pow2Table();
    PopcountSplit(b / 16, 4, b % 16);
  }

  lemma TableCountsBits(b: Byte)
    ensures Nbits(b) == Popcount(b) <= 8
  {
    hide Popcount, NBITS, CountsFrom;
    var high, low := b as int / 16, b as int % 16;
    RowStart(high);
    RowEntry(NBITS[high], Popcount(high), low);
    NibblesOf(b);
    NibbleBound(high);
    NibbleBound(low);
  }

  // ---- words ---------------------------------------------------------------------------

  /** The little-endian word stored in four bytes. */
  function Word(b: seq<Byte>): (w: nat)
    requires |b| == 4
    ensures w < 0x1_0000_0000
  {
    At(b, 0) + 0x100 * At(b, 1) + 0x1_0000 * At(b, 2) + 0x100_0000 * At(b, 3)
  }

  /** my_count_bits_uint32: four table look-ups, the sum cast to unsigned char. */
  function CountBits32(v: nat): nat
    requires v < 0x1_0000_0000
  {
    (Nbits(v % 0x100) + Nbits(v / 0x100 % 0x100) + Nbits(v / 0x1_0000 % 0x100) + Nbits(v / 0x100_0000)) % 0x100
  }

  lemma TableCountsWord(v: nat)
    requires v < 0x1_0000_0000
    ensures CountBits32(v) == Popcount(v)
  {
    hide Popcount, Nbits;
    var v1 := v / 0x100;
    var v2 := v1 / 0x100;
    DivDiv(v, 0x100, 0x100);
    DivDiv(v, 0x100, 0x1_0000);
    DivDiv(v1, 0x100, 0x100);
    TopByte(v);
    TopByte(v1);
    TopByte(v2);
    TableCountsBits(v2 / 0x100);
  }

  lemma TopByte(v: nat)
    ensures Popcount(v) == Popcount(v / 0x100) + Nbits(v % 0x100) && Nbits(v % 0x100) <= 8
  {
    hide Popcount, Nbits;
    TableCountsBits(v % 0x100);
    Pow2Table();
    PopcountSplit(v / 0x100, 8, v % 0x100);
  }

  /** How many of the low m bits of v are set. */
  function CountLow(v: nat, m: nat): nat {
    if m == 0 then 0 else CountLow(v, m - 1) + BitAt(v, m - 1)
  }

  lemma {:induction false} CountLowIsPopcount(v: nat, m: nat)
    ensures CountLow(v, m) == Popcount(v % Pow(2, m))
  {
    if m > 0 {
      hide Popcount;
      var p := Pow(2, m - 1);
      CountLowIsPopcount(v, m - 1);
      ModSplit(v, p, 2);
      PopcountSplit(BitAt(v, m - 1), m - 1, v % p);
      NibbleCounts();
      assert v % Pow(2, m) == BitAt(v, m - 1) * p + v % p;
    } else {
      assert Pow(2, 0) == 1 && v % 1 == 0;
    }
  }

  lemma BitOfRemainder(x: nat, n: nat, r: nat)
    requires r < n
    ensures BitAt(x % Pow(2, n), r) == BitAt(x, r)
  {
    var p, q, half := Pow(2, r), Pow(2, n - r), Pow(2, n - r - 1);
    PowAdd(2, r, n - r);
    ModSplit(x, p, q);
    DivModUnique(x % (p * q), p, (x / p) % q, x % p);
    ModSplit(x / p, 2, half);
    DivModUnique((x / p) % q, 2, x / p / 2 % half, x / p % 2);
  }

  lemma BitAboveBytes(x: nat, j: nat, r: nat)
    ensures BitAt(x, 8 * j + r) == BitAt(x / Pow(2, 8 * j), r)
  {
    PowAdd(2, 8 * j, r);
    DivDiv(x, Pow(2, 8 * j), Pow(2, r));
  }

  lemma WordBytes(b: seq<Byte>)
    requires |b| == 4
    ensures Word(b) % 0x100 == b[0] && Word(b) / 0x100 % 0x100 == b[1]
    ensures Word(b) / 0x1_0000 % 0x100 == b[2] && Word(b) / 0x100_0000 % 0x100 == b[3]
  {
    var low1, low2, low3 := At(b, 0), At(b, 0) + 0x100 * At(b, 1), At(b, 0) + 0x100 * At(b, 1) + 0x1_0000 * At(b, 2);
    DivModUnique(Word(b), 0x100, At(b, 1) + 0x100 * At(b, 2) + 0x1_0000 * At(b, 3), low1);
    DivModUnique(Word(b), 0x1_0000, At(b, 2) + 0x100 * At(b, 3), low2);
    DivModUnique(Word(b), 0x100_0000, At(b, 3), low3);
  }

  lemma ByteOfWord(b: seq<Byte>, j: nat)
    requires |b| == 4 && j < 4
    ensures Word(b) / Pow(2, 8 * j) % Pow(2, 8) == b[j]
  {
    hide Word, Pow;
    WordBytes(b);
    ByteWeights();
    assert Word(b) / 1 == Word(b);
    assert j == 0 || j == 1 || j == 2 || j == 3;
  }

  lemma BitOfWord(b: seq<Byte>, k: nat)
    requires |b| == 4 && k < 32
    ensures BitAt(Word(b), k) == BitAt(b[k / 8], k % 8)
  {
    hide BitAt, Word, Pow;
    var j, r := k / 8, k % 8;
    BitAboveBytes(Word(b), j, r);
    ByteOfWord(b, j);
    BitOfRemainder(Word(b) / Pow(2, 8 * j), 8, r);
  }

  lemma ByteWeights()
    ensures Pow(2, 0) == 1 && Pow(2, 8) == 0x100 && Pow(2, 16) == 0x1_0000 && Pow(2, 24) == 0x100_0000
    ensures Pow(2, 32) == 0x1_0000_0000
  {
    Pow2Table();
    PowAdd(2, 8, 8);
    PowAdd(2, 16, 8);
    PowAdd(2, 24, 8);
  }

  // ---- the bitmap ----------------------------------------------------------------------

  /** How many of the bits 0 .. n-1 of a byte string are set. */
  function CountSet(b: seq<Byte>, n: nat): nat
    requires n <= 8 * |b|
  {
    if n == 0 then 0 else CountSet(b, n - 1) + BitAt(b[(n - 1) / 8], (n - 1) % 8)
  }

  lemma CountSetStep(b: seq<Byte>, w: nat, k: nat)
    requires 4 * w + 4 <= |b| && k < 32
    ensures CountSet(b, 32 * w + k + 1)
         == CountSet(b, 32 * w + k) + BitAt(b[4 * w..4 * w + 4][k / 8], k % 8)
  {
    var n := 32 * w + k;
    assert n / 8 == 4 * w + k / 8 && n % 8 == k % 8;
  }

  lemma CountLowStep(v: nat, m: nat)
    requires m > 0
    ensures CountLow(v, m) == CountLow(v, m - 1) + BitAt(v, m - 1)
  {
  }

  lemma {:induction false} CountSetByWord(b: seq<Byte>, w: nat, m: nat)
    requires 4 * w + 4 <= |b| && m <= 32
    ensures CountSet(b, 32 * w + m) == CountSet(b, 32 * w) + CountLow(Word(b[4 * w..4 * w + 4]), m)
  {
    if m > 0 {
      hide *;
      CountLowStep(Word(b[4 * w..4 * w + 4]), m);
      CountSetByWord(b, w, m - 1);
      CountSetStep(b, w, m - 1);
      BitOfWord(b[4 * w..4 * w + 4], m - 1);
    }
  }

  lemma EmptyCount(b: seq<Byte>)
    ensures CountSet(b, 0) == 0
  {
  }

  function WordsInMap(nBits: nat): nat {
    (nBits + 31) / 32
  }

  function BytesInMap(nBits: nat): nat {
    (nBits + 7) / 8
  }

  /** The bits of the last word that belong to the map: between 1 and 32. */
  function LastBits(nBits: nat): (m: nat)
    requires nBits > 0
    ensures 1 <= m <= 32
  {
    nBits - 32 * (WordsInMap(nBits) - 1)
  }

  class MyBitmap {
    /** The words, as the bytes they are made of. */
    const bitmap: array<Byte>
    const nBits: nat
    var lastWordMask: nat
    var lastWordPtr: nat

    ghost predicate Valid()
      reads this
    {
      && bitmap.Length == 4 * WordsInMap(nBits)
      && lastWordMask < 0x1_0000_0000
      && (nBits > 0 ==> lastWordPtr == WordsInMap(nBits) - 1 && lastWordMask == Pow(2, 32) - Pow(2, LastBits(nBits)))
    }

    /** bitmap_is_set. */
    predicate IsSet(bit: nat)
      requires bitmap.Length == 4 * WordsInMap(nBits) && bit < nBits
      reads bitmap
    {
      BitAt(bitmap[bit / 8], bit % 8) == 1
    }

    /** bitmap_init. */
    constructor (nBits: nat)
      ensures Valid() && this.nBits == nBits && fresh(bitmap)
      ensures forall i :: 0 <= i < bitmap.Length ==> bitmap[i] == 0
    {
      this.nBits := nBits;
      bitmap := new Byte[4 * WordsInMap(nBits)];
      new;
      CreateLastWordMask();
      forall i | 0 <= i < bitmap.Length {
        bitmap[i] := 0;
      }
    }

    method CreateLastWordMask()
      requires bitmap.Length == 4 * WordsInMap(nBits)
      modifies this
      ensures Valid()
    {
      hide Pow, Word;
      var used := if nBits == 0 then 8 else 1 + (nBits - 1) % 8;
      PowMonotone(2, used, 8);
      Pow2Table();
      var mask: Byte := 256 - Pow(2, used);
      lastWordPtr := if nBits == 0 then 0 else WordsInMap(nBits) - 1;
      var ptr: seq<Byte>;
      match BytesInMap(nBits) % 4 {
        case 1 =>
          ptr := [255, 255, 255, 255][0 := mask];
          assert ptr == [mask, 255, 255, 255];
        case 2 =>
          ptr := [255, 255, 255, 255][0 := 0][1 := mask];
          assert ptr == [0, mask, 255, 255];
        case 3 =>
          ptr := [0, 0, 0, 0][2 := mask][3 := 255];
          assert ptr == [0, 0, mask, 255];
        case _ =>
          ptr := [0, 0, 0, 0][3 := mask];
          assert ptr == [0, 0, 0, mask];
      }
      lastWordMask := Word(ptr);
      if nBits > 0 {
        MaskByBytes(nBits, used);
      }
    }

    /** bitmap_bits_set: the number of set bits of the map, whatever the padding bits hold. */
    method BitsSet() returns (res: nat)
      requires Valid() && nBits > 0
      ensures res == CountSet(bitmap[..], nBits)
    {
      hide Pow, Word, CountSet, CountBits32, BitAnd;
      assert CountSet(bitmap[..], 0) == 0 by {
        EmptyCount(bitmap[..]);
      }
      var dataPtr := 0;
      res := 0;
      while dataPtr < lastWordPtr
        invariant dataPtr <= lastWordPtr
        invariant res == CountSet(bitmap[..], 32 * dataPtr)
      {
        var v := Word(bitmap[4 * dataPtr..4 * dataPtr + 4]);
        WholeWord(bitmap[..], dataPtr);
        res := res + CountBits32(v);
        dataPtr := dataPtr + 1;
      }
      var last := Word(bitmap[4 * lastWordPtr..4 * lastWordPtr + 4]);
      LastWord(bitmap[..], lastWordPtr, LastBits(nBits));
      res := res + CountBits32(BitAnd(last, 0xFFFF_FFFF - lastWordMask));
    }
  }

  /** The mask built byte by byte is ones above the last bit of the map and zeros below. */
  lemma MaskByBytes(nBits: nat, used: nat)
    requires nBits > 0 && used == 1 + (nBits - 1) % 8
    ensures Pow(2, used) <= 256
    ensures var mask: Byte := 256 - Pow(2, used);
            Pow(2, 32) - Pow(2, LastBits(nBits))
            == Word(match BytesInMap(nBits) % 4
                    case 1 => [mask, 255, 255, 255]
                    case 2 => [0, mask, 255, 255]
                    case 3 => [0, 0, mask, 255]
                    case _ => [0, 0, 0, mask])
  {
    hide Pow;
    PowMonotone(2, used, 8);
    ByteWeights();
    var full := (nBits - 1) / 8;
    assert BytesInMap(nBits) == full + 1;
    assert LastBits(nBits) == 8 * (full % 4) + used by {
      assert nBits == 8 * full + used;
      assert WordsInMap(nBits) == full / 4 + 1;
    }
    PowAdd(2, 8 * (full % 4), used);
  }

  lemma WholeWord(b: seq<Byte>, w: nat)
    requires 4 * w + 4 <= |b|
    ensures CountSet(b, 32 * w + 32) == CountSet(b, 32 * w) + CountBits32(Word(b[4 * w..4 * w + 4]))
  {
    hide Popcount, Pow, CountBits32, CountSet, CountLow;
    var v := Word(b[4 * w..4 * w + 4]);
    CountSetByWord(b, w, 32);
    CountLowIsPopcount(v, 32);
    ByteWeights();
    TableCountsWord(v);
  }

  lemma LastWord(b: seq<Byte>, w: nat, m: nat)
    requires 4 * w + 4 <= |b| && 1 <= m <= 32
    ensures var v := Word(b[4 * w..4 * w + 4]);
            var kept := BitAnd(v, Pow(2, m) - 1);
            && kept < 0x1_0000_0000
            && CountSet(b, 32 * w + m) == CountSet(b, 32 * w) + CountBits32(kept)
    ensures Pow(2, 32) == 0x1_0000_0000
  {
    hide Popcount, Pow, CountBits32, CountSet, CountLow, BitAnd;
    var v := Word(b[4 * w..4 * w + 4]);
    ByteWeights();
    AndLowMask(v, m);
    PowMonotone(2, m, 32);
    CountSetByWord(b, w, m);
    CountLowIsPopcount(v, m);
    TableCountsWord(v % Pow(2, m));
  }
}
