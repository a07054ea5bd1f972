/** Which encodings of a decimal the decoder refuses, and what is cut of decimals and texts that do not fit. */
module DecimalLimits {
  import opened Arith
  import opened ByteStore
  import opened DecimalEncoding
  import opened DecimalText
  import opened DecimalTheorems
  import opened DecimalValue
  import opened PackedDecimal

  // ---- what is refused -----------------------------------------------------------------------

  /** The two's complement reading of x in 32 bits. */
  function In32Bits(x: int): int {
    (x + 0x8000_0000) % 0x1_0000_0000 - 0x8000_0000
  }

  /** A group of w digits in n bytes, read as a signed word. */
  function ReadSigned(g: nat, n: nat): int {
    if g < Pow(256, n) / 2 then g else g - Pow(256, n)
  }

  /** What the decoder lets through as group k: nine digits at most; one digit too many in a short first group; and a
      short last group that stays below 10^9 when it is shifted up in 32 bits. */
  predicate LetThrough(from: seq<Byte>, precision: nat, scale: nat, k: nat)
    requires Encoding(from, precision, scale) && k < Count(precision, scale)
  {
    var l := FullLayout(precision, scale);
    GroupEnds(precision, scale, k);
    var x := ReadSigned(Group(Magnitude(from), l, k), Size(l, k));
    if k == 0 && (precision - scale) % 9 > 0 then 0 <= x < Pow10((precision - scale) % 9 + 1)
    else if k == Count(precision, scale) - 1 && scale % 9 > 0 then
      0 <= In32Bits(x * Pow10(9 - scale % 9)) <= 999999999
    else 0 <= x <= 999999999
  }

  lemma SignedReading(g: nat, n: nat)
    requires 1 <= n <= 4
    ensures SignedWord(n, g) == ReadSigned(g, n)
  {
    Pow256Table();
  }

  lemma Wrapped(x: int)
    ensures ToSigned(x, 0x1_0000_0000) == In32Bits(x)
  {
    var q, r := x / 0x1_0000_0000, x % 0x1_0000_0000;
    if r < 0x8000_0000 {
      DivModUnique(x + 0x8000_0000, 0x1_0000_0000, q, r + 0x8000_0000);
    } else {
      DivModUnique(x + 0x8000_0000, 0x1_0000_0000, q + 1, r - 0x8000_0000);
    }
  }

  lemma GroupEnds(precision: nat, scale: nat, k: nat)
    requires scale <= precision && k < Count(precision, scale)
    ensures Offset(FullLayout(precision, scale), k + 1) <= DecimalBinSize(precision, scale)
  {
    OffsetMonotone(FullLayout(precision, scale), k + 1, Count(precision, scale));
  }

  lemma IntLetThrough(from: seq<Byte>, precision: nat, scale: nat, k: nat)
    requires Encoding(from, precision, scale) && k < FullLayout(precision, scale).IntWordCount()
    ensures k < Count(precision, scale)
    ensures var l := FullLayout(precision, scale);
            Accepts(k == 0, l.intg0x, Ints(from, l)[k]) <==> LetThrough(from, precision, scale, k)
  {
    hide Group, Magnitude, Offset, Size, FlipSign, IntWord, ReadSigned, SignedWord, Pow;
    var l := FullLayout(precision, scale);
    GroupEnds(precision, scale, k);
    IntWordIsGroup(from, l, k);
    SignedReading(Group(Magnitude(from), l, k), Size(l, k));
  }

  lemma FracLetThrough(from: seq<Byte>, precision: nat, scale: nat, k: nat)
    requires Encoding(from, precision, scale) && k < FullLayout(precision, scale).FracWordCount()
    ensures var l := FullLayout(precision, scale);
            var n := l.IntWordCount() + k;
            && n < Count(precision, scale)
            && (Accepts(false, 0, Fracs(from, l)[k]) <==> LetThrough(from, precision, scale, n))
  {
    hide Group, Magnitude, Offset, Size, FlipSign, FracWord, ReadSigned, SignedWord, Pow, Pow10, In32Bits, ToSigned;
    var l := FullLayout(precision, scale);
    var n := l.IntWordCount() + k;
    GroupEnds(precision, scale, n);
    FracWordIsGroup(from, l, k);
    SignedReading(Group(Magnitude(from), l, n), Size(l, n));
    var x := SignedWord(Size(l, n), Group(Magnitude(from), l, n));
    Wrapped(x * Pow10(9 - l.frac0x));
  }

  /** An encoding is refused exactly when some group is not let through; the error is then E_DEC_BAD_NUM. */
  lemma RefusedExactly(from: seq<Byte>, precision: nat, scale: nat)
    requires Encoding(from, precision, scale) && precision <= MAX_PRECISION && scale <= MAX_SCALE
    ensures Decoded(from, precision, scale, 9).0
         == if forall k: nat :: k < Count(precision, scale) ==> LetThrough(from, precision, scale, k) then 0 else 8
  {
    hide LetThrough, Accepts, Decoded, Offset, Assembled;
    var l := FullLayout(precision, scale);
    DecodedWords(from, precision, scale);
    forall k: nat | k < l.IntWordCount()
      ensures Accepts(k == 0, l.intg0x, Ints(from, l)[k]) <==> LetThrough(from, precision, scale, k)
    {
      IntLetThrough(from, precision, scale, k);
    }
    forall k: nat | k < l.FracWordCount()
      ensures Accepts(false, 0, Fracs(from, l)[k]) <==> LetThrough(from, precision, scale, l.IntWordCount() + k)
    {
      FracLetThrough(from, precision, scale, k);
    }
    if Accepted(from, l) {
      forall k: nat | k < Count(precision, scale) ensures LetThrough(from, precision, scale, k) {
        if k >= l.IntWordCount() {
          assert Accepts(false, 0, Fracs(from, l)[k - l.IntWordCount()]);
        }
      }
    }
  }

  // ---- decimals with too few words -----------------------------------------------------------------

  /** What is decoded when the decimal has room for `len` words: all groups; or the integer groups and as many whole
      fraction groups as there is room for, with error 1; or the last `len` integer groups, with error 2. */
  lemma FitsInWords(precision: nat, scale: nat, len: nat)
    requires scale <= precision
    ensures var l := FullLayout(precision, scale);
            var (r, error) := FitLayout(l, len);
            var ints, all := (precision - scale + 8) / 9, (precision - scale + 8) / 9 + (scale + 8) / 9;
            && (all <= len ==> r == l && error == 0)
            && (ints <= len < all ==>
                  && error == 1 && r.skip == 0 && r.intg0x == l.intg0x && r.intg0 == l.intg0
                  && r.frac0 == len - ints && r.frac0x == 0)
            && (len < ints ==>
                  && error == 2 && r.intg0x == r.frac0 == r.frac0x == 0 && r.intg0 == len
                  && r.skip + 4 * len == l.LeadBytes() + 4 * l.intg0)
  {
    hide DecimalBinSize;
  }

  // ---- texts that do not fit -----------------------------------------------------------------------

  /** The characters of a numeral with so many digits on both sides of the point. */
  function Characters(sign: bool, intg: nat, frac: nat): nat {
    (if sign then 1 else 0) + (if intg == 0 then 1 else intg) + if frac == 0 then 0 else frac + 1
  }

  /** A text that does not fit loses fraction digits first, with error 1, and integer digits only when no fraction is
      left, with error 2; no more of them than it takes. */
  lemma LongestThatFits(sign: bool, intg: nat, frac: nat, room: nat)
    requires room >= 1 + if sign then 1 else 0
    ensures var r := Fit(sign, intg, frac, room);
            && r.len == Characters(sign, r.intg, r.frac) <= room
            && (forall f :: 0 <= f <= frac && Characters(sign, intg, f) <= room ==> r.intg == intg && f <= r.frac)
            && (r.intg < intg ==> r.frac == 0 && r.len == room)
            && r.error == (if r.intg < intg then 2 else if r.frac < frac then 1 else 0)
  {
  }
}
