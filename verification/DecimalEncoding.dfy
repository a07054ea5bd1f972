/** What an encoded decimal denotes, independently of the decoder: base-10^w groups in base-256
    words, all bytes complemented for negative numbers, the sign bit flipped. */
module DecimalEncoding {
  import opened Arith
  import opened PackedDecimal

  // ---- the groups of a layout ------------------------------------------------------

  function GroupCount(l: Layout): nat {
    l.IntWordCount() + l.FracWordCount()
  }

  /** Decimal digits of group k. */
  function Width(l: Layout, k: nat): (w: nat)
    requires l.Valid() && k < GroupCount(l)
    ensures 1 <= w <= 9
  {
    if k < l.IntWordCount() then (if l.intg0x > 0 && k == 0 then l.intg0x else 9)
    else if k - l.IntWordCount() < l.frac0 then 9 else l.frac0x
  }

  function Size(l: Layout, k: nat): (n: nat)
    requires l.Valid() && k < GroupCount(l)
    ensures 1 <= n <= 4
  {
    DIG2BYTES[Width(l, k)]
  }

  /** Where group n starts: the bytes of the groups before it. */
  function Offset(l: Layout, n: nat): nat
    requires l.Valid() && n <= GroupCount(l)
  {
    if n == 0 then 0 else Offset(l, n - 1) + Size(l, n - 1)
  }

  function Digits(l: Layout, n: nat): nat
    requires l.Valid() && n <= GroupCount(l)
  {
    if n == 0 then 0 else Digits(l, n - 1) + Width(l, n - 1)
  }

  lemma {:induction false} OffsetFormula(l: Layout, n: nat)
    requires l.Valid() && n <= GroupCount(l)
    ensures n <= l.IntWordCount() ==>
              Offset(l, n) == (if l.intg0x > 0 && n > 0 then l.LeadBytes() + 4 * (n - 1) else 4 * n)
              && Digits(l, n) == (if l.intg0x > 0 && n > 0 then l.intg0x + 9 * (n - 1) else 9 * n)
    ensures l.IntWordCount() <= n <= l.IntWordCount() + l.frac0 ==>
              Offset(l, n) == l.LeadBytes() + 4 * l.intg0 + 4 * (n - l.IntWordCount())
              && Digits(l, n) == l.IntDigits() + 9 * (n - l.IntWordCount())
    ensures n == GroupCount(l) ==>
              Offset(l, n) + l.skip == l.End() && Digits(l, n) == l.IntDigits() + l.FracDigits()
  {
    if n > 0 {
      OffsetFormula(l, n - 1);
    }
  }

  lemma {:induction false} OffsetMonotone(l: Layout, m: nat, n: nat)
    requires l.Valid() && m <= n <= GroupCount(l)
    ensures Offset(l, m) <= Offset(l, n)
    decreases n
  {
    if m < n {
      OffsetMonotone(l, m, n - 1);
    }
  }

  // ---- the number --------------------------------------------------------------------

  /** The bytes of the absolute value. */
  function Magnitude(from: seq<Byte>): (m: seq<Byte>)
    requires from != []
    ensures |m| == |from|
  {
    if IsNegative(from) then Complement(FlipSign(from)) else FlipSign(from)
  }

  function Group(m: seq<Byte>, l: Layout, k: nat): (g: nat)
    requires l.Valid() && k < GroupCount(l) && Offset(l, k + 1) <= |m|
    ensures g < Pow(256, Size(l, k))
  {
    BigEndian(m[Offset(l, k)..Offset(l, k + 1)])
  }

  /** The number that the first n groups spell. */
  function Unscaled(m: seq<Byte>, l: Layout, n: nat): nat
    requires l.Valid() && n <= GroupCount(l) && Offset(l, n) <= |m|
  {
    if n == 0 then 0
    else Unscaled(m, l, n - 1) * Pow10(Width(l, n - 1)) + Group(m, l, n - 1)
  }

  predicate GroupFits(m: seq<Byte>, l: Layout, k: nat)
    requires l.Valid() && k < GroupCount(l) && Offset(l, k + 1) <= |m|
  {
    Group(m, l, k) < Pow10(Width(l, k))
  }

  /** Every group is below 10^(its digits). */
  predicate GroupsFit(m: seq<Byte>, l: Layout, n: nat)
    requires l.Valid() && n <= GroupCount(l) && Offset(l, n) <= |m|
  {
    n > 0 ==> GroupsFit(m, l, n - 1) && GroupFits(m, l, n - 1)
  }

  predicate Encoding(from: seq<Byte>, precision: nat, scale: nat) {
    scale <= precision && precision > 0 && |from| == DecimalBinSize(precision, scale)
  }

  /** All the groups of an encoding. */
  function Count(precision: nat, scale: nat): (n: nat)
    requires scale <= precision
    ensures n == GroupCount(FullLayout(precision, scale))
    ensures Offset(FullLayout(precision, scale), n) == DecimalBinSize(precision, scale)
    ensures Digits(FullLayout(precision, scale), n) == precision
  {
    OffsetFormula(FullLayout(precision, scale), GroupCount(FullLayout(precision, scale)));
    GroupCount(FullLayout(precision, scale))
  }

  predicate WellFormed(from: seq<Byte>, precision: nat, scale: nat)
    requires Encoding(from, precision, scale)
  {
    GroupsFit(Magnitude(from), FullLayout(precision, scale), Count(precision, scale))
  }

  /** The encoded value times 10^scale, without its sign and with it. */
  function Denoted(from: seq<Byte>, precision: nat, scale: nat): nat
    requires Encoding(from, precision, scale)
  {
    Unscaled(Magnitude(from), FullLayout(precision, scale), Count(precision, scale))
  }

  function SignedDenoted(from: seq<Byte>, precision: nat, scale: nat): int
    requires Encoding(from, precision, scale)
  {
    Signed(IsNegative(from), Denoted(from, precision, scale))
  }

  // ---- order -------------------------------------------------------------------------

  lemma TenBelow256(w: nat)
    requires 1 <= w <= 9
    ensures 2 * Pow10(w) <= Pow(256, DIG2BYTES[w])
  {
    Pow10Table();
    Pow256Table();
  }

  lemma BigEndianStep(m: seq<Byte>, l: Layout, n: nat)
    requires l.Valid() && n < GroupCount(l) && Offset(l, n + 1) <= |m|
    ensures BigEndian(m[..Offset(l, n + 1)])
         == BigEndian(m[..Offset(l, n)]) * Pow(256, Size(l, n)) + Group(m, l, n)
  {
    assert m[..Offset(l, n + 1)] == m[..Offset(l, n)] + m[Offset(l, n)..Offset(l, n + 1)];
    BigEndianConcat(m[..Offset(l, n)], m[Offset(l, n)..Offset(l, n + 1)]);
  }

  /** Magnitudes compare as byte strings exactly as they compare as decimal numbers. */
  lemma {:induction false} MagnitudeOrder(a: seq<Byte>, b: seq<Byte>, l: Layout, n: nat)
    requires l.Valid() && n <= GroupCount(l) && Offset(l, n) <= |a| && Offset(l, n) <= |b|
    requires GroupsFit(a, l, n) && GroupsFit(b, l, n)
    ensures BigEndian(a[..Offset(l, n)]) < BigEndian(b[..Offset(l, n)])
       <==> Unscaled(a, l, n) < Unscaled(b, l, n)
    ensures BigEndian(a[..Offset(l, n)]) == BigEndian(b[..Offset(l, n)])
       <==> Unscaled(a, l, n) == Unscaled(b, l, n)
  {
    hide BigEndian, Pow, Width, Group;
    if n > 0 {
      MagnitudeOrder(a, b, l, n - 1);
      BigEndianStep(a, l, n - 1);
      BigEndianStep(b, l, n - 1);
      TenBelow256(Width(l, n - 1));
      HornerStep(BigEndian(a[..Offset(l, n - 1)]), BigEndian(b[..Offset(l, n - 1)]), Pow(256, Size(l, n - 1)),
                 Group(a, l, n - 1), Group(b, l, n - 1));
      HornerStep(Unscaled(a, l, n - 1), Unscaled(b, l, n - 1), Pow10(Width(l, n - 1)),
                 Group(a, l, n - 1), Group(b, l, n - 1));
    }
  }

  /** The stored bytes as a number: the magnitude above or below the middle of the range. */
  lemma StoredNumber(from: seq<Byte>)
    requires from != []
    ensures var half := 128 * Pow(256, |from| - 1);
            && Pow(256, |from|) == 2 * half
            && BigEndian(Magnitude(from)) < half
            && BigEndian(from) == if IsNegative(from) then half - 1 - BigEndian(Magnitude(from))
                                  else half + BigEndian(Magnitude(from))
  {
    hide BigEndian, Complement, Pow, FlipSign;
    PowStep(256, |from|);
    FlipSignNumber(from);
    BigEndianComplement(FlipSign(from));
  }

  lemma FlipSignNumber(from: seq<Byte>)
    requires from != []
    ensures var half := 128 * Pow(256, |from| - 1);
            var x, y := BigEndian(from), BigEndian(FlipSign(from));
            && (IsNegative(from) ==> y == x + half && x < half)
            && (!IsNegative(from) ==> y == x - half && y < half)
  {
    hide BigEndian, Pow;
    var raw := FlipSign(from);
    BigEndianHead(from);
    BigEndianHead(raw);
    assert raw[1..] == from[1..];
    FlippedTop(from[0], raw[0], Pow(256, |from| - 1), BigEndian(from[1..]), BigEndian(from), BigEndian(raw));
  }

  /** Flipping the top bit moves a number by half the range. */
  lemma FlippedTop(b: Byte, flipped: Byte, unit: nat, low: nat, x: nat, y: nat)
    requires low < unit && flipped == (if b < 128 then b + 128 else b - 128)
    requires x == b * unit + low && y == flipped * unit + low
    ensures b < 128 ==> y == x + 128 * unit && x < 128 * unit
    ensures b >= 128 ==> y == x - 128 * unit && y < 128 * unit
  {
    if b < 128 {
      MulGap(b, 128, unit);
    } else {
      MulGap(flipped, 128, unit);
    }
  }

  /** memcmp on two well-formed encodings is the numeric order, except that -0 sorts before +0. */
  lemma EncodingOrder(a: seq<Byte>, b: seq<Byte>, precision: nat, scale: nat)
    requires Encoding(a, precision, scale) && Encoding(b, precision, scale)
    requires WellFormed(a, precision, scale) && WellFormed(b, precision, scale)
    ensures LexLess(a, b) <==>
              SignedDenoted(a, precision, scale) < SignedDenoted(b, precision, scale)
              || (SignedDenoted(a, precision, scale) == SignedDenoted(b, precision, scale) == 0
                  && IsNegative(a) && !IsNegative(b))
    ensures a == b <==>
              SignedDenoted(a, precision, scale) == SignedDenoted(b, precision, scale)
              && IsNegative(a) == IsNegative(b)
  {
    hide BigEndian, LexLess, Unscaled, GroupsFit, FullLayout, DecimalBinSize, Complement, FlipSign, Pow;
    var l, n := FullLayout(precision, scale), Count(precision, scale);
    LexIsNumeric(a, b);
    StoredNumber(a);
    StoredNumber(b);
    var ma, mb := Magnitude(a), Magnitude(b);
    assert ma[..Offset(l, n)] == ma && mb[..Offset(l, n)] == mb;
    MagnitudeOrder(ma, mb, l, n);
    MagnitudeOrder(mb, ma, l, n);
  }

  // ---- the encoder -------------------------------------------------------------------

  function ToBytes(u: nat, n: nat): (s: seq<Byte>)
    ensures |s| == n
  {
    if n == 0 then [] else ToBytes(u / 256, n - 1) + [u % 256]
  }

  lemma {:induction false} BigEndianToBytes(u: nat, n: nat)
    requires u < Pow(256, n)
    ensures BigEndian(ToBytes(u, n)) == u
  {
    if n > 0 {
      BigEndianToBytes(u / 256, n - 1);
      assert ToBytes(u, n)[..n - 1] == ToBytes(u / 256, n - 1);
    }
  }

  function EncodeMagnitude(u: nat, l: Layout, n: nat): (m: seq<Byte>)
    requires l.Valid() && n <= GroupCount(l)
    ensures |m| == Offset(l, n)
  {
    if n == 0 then []
    else
      var p := Pow10(Width(l, n - 1));
      EncodeMagnitude(u / p, l, n - 1) + ToBytes(u % p, Size(l, n - 1))
  }

  /** The format as its inverse: the encoder of which only a declaration exists. */
  function Encode(negative: bool, u: nat, precision: nat, scale: nat): (from: seq<Byte>)
    requires scale <= precision && precision > 0
    ensures Encoding(from, precision, scale)
  {
    var m := EncodeMagnitude(u, FullLayout(precision, scale), Count(precision, scale));
    FlipSign(if negative then Complement(m) else m)
  }

  /** The value of a prefix depends on the bytes of that prefix alone. */
  lemma {:induction false} PrefixOnly(a: seq<Byte>, b: seq<Byte>, l: Layout, n: nat)
    requires l.Valid() && n <= GroupCount(l) && Offset(l, n) <= |a| && Offset(l, n) <= |b|
    requires a[..Offset(l, n)] == b[..Offset(l, n)]
    ensures Unscaled(a, l, n) == Unscaled(b, l, n)
    ensures GroupsFit(a, l, n) == GroupsFit(b, l, n)
  {
    if n > 0 {
      var i, j := Offset(l, n - 1), Offset(l, n);
      assert a[..i] == a[..j][..i] && b[..i] == b[..j][..i];
      assert a[i..j] == a[..j][i..] && b[i..j] == b[..j][i..];
      PrefixOnly(a, b, l, n - 1);
    }
  }

  lemma {:induction false} EncodedMagnitude(u: nat, l: Layout, n: nat)
    requires l.Valid() && n <= GroupCount(l) && u < Pow10(Digits(l, n))
    ensures var m := EncodeMagnitude(u, l, n); Unscaled(m, l, n) == u && GroupsFit(m, l, n)
    decreases n
  {
    if n > 0 {
      hide ToBytes, Width, Pow, BigEndian, Unscaled, GroupsFit;
      var p := Pow10(Width(l, n - 1));
      var front, m := EncodeMagnitude(u / p, l, n - 1), EncodeMagnitude(u, l, n);
      PowAdd(10, Digits(l, n - 1), Width(l, n - 1));
      QuotientBound(u, Pow10(Digits(l, n - 1)), p);
      QuotientAndRemainder(u, p);
      EncodedMagnitude(u / p, l, n - 1);
      assert m[..Offset(l, n - 1)] == front == front[..Offset(l, n - 1)];
      PrefixOnly(m, front, l, n - 1);
      assert m[Offset(l, n - 1)..Offset(l, n)] == ToBytes(u % p, Size(l, n - 1));
      TenBelow256(Width(l, n - 1));
      BigEndianToBytes(u % p, Size(l, n - 1));
      LastGroup(m, l, n, u / p, u % p);
    }
  }

  lemma LastGroup(m: seq<Byte>, l: Layout, n: nat, front: nat, last: nat)
    requires l.Valid() && 0 < n <= GroupCount(l) && Offset(l, n) <= |m|
    requires Unscaled(m, l, n - 1) == front && GroupsFit(m, l, n - 1)
    requires Group(m, l, n - 1) == last < Pow10(Width(l, n - 1))
    ensures Unscaled(m, l, n) == front * Pow10(Width(l, n - 1)) + last && GroupsFit(m, l, n)
  {
    hide Group, Width, Pow;
  }

  lemma QuotientAndRemainder(u: nat, p: nat)
    requires p > 0
    ensures u == (u / p) * p + u % p && u % p < p
  {
  }

  lemma QuotientBound(u: nat, a: nat, p: nat)
    requires p > 0 && u < a * p
    ensures u / p < a
  {
    if u / p >= a {
      MulMonotone(a, u / p, p);
    }
  }

  /** Every number of at most `precision` digits has a well-formed encoding that denotes it. */
  lemma EncodeDenotes(negative: bool, u: nat, precision: nat, scale: nat)
    requires scale <= precision && precision > 0
    requires u < Pow10(precision)
    ensures var from := Encode(negative, u, precision, scale);
            && IsNegative(from) == negative
            && Denoted(from, precision, scale) == u
            && WellFormed(from, precision, scale)
  {
    hide EncodeMagnitude, Unscaled, GroupsFit, Offset, Digits;
    var l, n := FullLayout(precision, scale), Count(precision, scale);
    var m := EncodeMagnitude(u, l, n);
    var from := Encode(negative, u, precision, scale);
    EncodedMagnitude(u, l, n);
    TopBitClear(m, l, n);
    assert Complement(Complement(m)) == m;
    assert FlipSign(from) == if negative then Complement(m) else m;
    assert Magnitude(from) == m;
  }

  /** A group that fits leaves the top bit of its word clear. */
  lemma TopBitClear(m: seq<Byte>, l: Layout, n: nat)
    requires l.Valid() && 0 < n <= GroupCount(l) && Offset(l, n) <= |m| && GroupsFit(m, l, n)
    ensures m != [] && m[0] < 128
    decreases n
  {
    if n > 1 {
      TopBitClear(m, l, n - 1);
    } else {
      var word := m[..Offset(l, 1)];
      assert m[Offset(l, 0)..Offset(l, 1)] == word;
      BigEndianHead(word);
      TenBelow256(Width(l, 0));
      var unit := Pow(256, |word| - 1);
      assert Pow(256, |word|) == 256 * unit;
      if m[0] >= 128 {
        MulMonotone(128, m[0], unit);
      }
    }
  }

  /** Well-formed encodings are exactly the encoder's outputs, one for each signed numeral. */
  lemma EncodeComplete(from: seq<Byte>, precision: nat, scale: nat)
    requires Encoding(from, precision, scale) && WellFormed(from, precision, scale)
    ensures Denoted(from, precision, scale) < Pow10(precision)
    ensures Encode(IsNegative(from), Denoted(from, precision, scale), precision, scale) == from
  {
    UnscaledBound(Magnitude(from), FullLayout(precision, scale), Count(precision, scale));
    EncodeDenotes(IsNegative(from), Denoted(from, precision, scale), precision, scale);
    EncodingOrder(from, Encode(IsNegative(from), Denoted(from, precision, scale), precision, scale), precision, scale);
  }

  lemma {:induction false} UnscaledBound(m: seq<Byte>, l: Layout, n: nat)
    requires l.Valid() && n <= GroupCount(l) && Offset(l, n) <= |m| && GroupsFit(m, l, n)
    ensures Unscaled(m, l, n) < Pow10(Digits(l, n))
  {
    if n > 0 {
      UnscaledBound(m, l, n - 1);
      PowAdd(10, Digits(l, n - 1), Width(l, n - 1));
      MulGap(Unscaled(m, l, n - 1), Pow10(Digits(l, n - 1)), Pow10(Width(l, n - 1)));
    }
  }
}
